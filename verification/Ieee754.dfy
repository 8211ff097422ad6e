// What a binary floating-point datum is worth, and what correct rounding means.
//
// Magnitudes are integers counted in units of the smallest subnormal of the format, so a
// rational magnitude num/den in those units is rounded exactly as IEEE 754-2019 words it.

module Ieee754 {
  import opened Bits

  /** The magnitude of the sign-less word w of a format with f fraction bits. */
  function Mag(f: nat, w: nat): nat {
    var e, m := Hi(w, f), Lo(w, f);
    if e == 0 then m else (Pow2(f) + m) * Pow2(e - 1)
  }

  /** The word of infinity: all-ones exponent field emax, zero fraction. */
  function InfWord(f: nat, emax: nat): nat {
    emax * Pow2(f)
  }

  /** Section 4.3.1: at or above this magnitude an exact result rounds to infinity. It lies half
      an ulp above the largest finite magnitude. */
  function OverflowAt(f: nat, emax: nat): nat
    requires emax >= 3
  {
    (Pow2(f + 2) - 1) * Pow2(emax - 3)
  }

  function Dist(f: nat, num: nat, den: nat, w: nat): nat {
    var d := num - Mag(f, w) * den;
    if d >= 0 then d else -d
  }

  /** Section 4.3.1, roundTiesToEven: w is infinity exactly from the overflow threshold on; below
      it, no finite datum is nearer to num/den than w, and if another one is equally near then w
      is the one with an even least significant digit. */
  ghost predicate RoundsTo(f: nat, emax: nat, num: nat, den: nat, w: nat)
    requires emax >= 3
  {
    && w <= InfWord(f, emax)
    && (w == InfWord(f, emax) <==> num >= OverflowAt(f, emax) * den)
    && (w < InfWord(f, emax) ==>
          forall v: nat | v < InfWord(f, emax) ::
            && Dist(f, num, den, w) <= Dist(f, num, den, v)
            && (v != w && Dist(f, num, den, w) == Dist(f, num, den, v) ==> w % 2 == 0))
  }

  // A significand q in units of 2^(e-1), packed the way a rounding carry ripples upwards.
  function PackedWord(f: nat, e: nat, q: nat): nat
    requires e >= 1
  {
    (e - 1) * Pow2(f) + q
  }

  lemma MagAt(f: nat, e: nat, q: nat)
    requires e >= 1 && q <= Pow2(f + 1)
    requires e >= 2 ==> q >= Pow2(f)
    ensures Mag(f, PackedWord(f, e, q)) == q * Pow2(e - 1)
  {
    var p := Pow2(f);
    var w := PackedWord(f, e, q);
    MulSucc(e - 1, p);
    MulSucc(e, p);
    if q < p {
      HiLoUnique(w, f, 0, q);
    } else if q < 2 * p {
      HiLoUnique(w, f, e, q - p);
    } else {
      HiLoUnique(w, f, e + 1, 0);
      MulAssoc(p, 2, Pow2(e - 1));
    }
  }

  // Every word is such a packed significand.
  lemma Unpack(f: nat, w: nat) returns (e: nat, q: nat)
    ensures e >= 1 && q < Pow2(f + 1) && (e >= 2 ==> q >= Pow2(f))
    ensures w == PackedWord(f, e, q) && Mag(f, w) == q * Pow2(e - 1)
  {
    MagIs(f, w);
    hide *;
    HiLo(w, f);
    Pow2Up(f, 1);
    if Hi(w, f) == 0 {
      e, q := 1, Lo(w, f);
      PackedIs(f, 1, q);
    } else {
      e, q := Hi(w, f), Pow2(f) + Lo(w, f);
      MulSucc(e - 1, Pow2(f));
      PackedIs(f, e, q);
    }
    UnitMag(q, e);
  }

  lemma MagIs(f: nat, w: nat)
    ensures Mag(f, w) == if Hi(w, f) == 0 then Lo(w, f) else (Pow2(f) + Lo(w, f)) * Pow2(Hi(w, f) - 1)
  {}

  lemma PackedIs(f: nat, e: nat, q: nat)
    requires e >= 1
    ensures PackedWord(f, e, q) == (e - 1) * Pow2(f) + q
  {}

  lemma UnitMag(q: nat, e: nat)
    ensures e == 1 ==> q * Pow2(e - 1) == q
  {}

  // Words are ordered like their magnitudes.
  lemma {:induction false} MagIncreasing(f: nat, v: nat, w: nat)
    requires v < w
    ensures Mag(f, v) < Mag(f, w)
    decreases w - v
  {
    if v + 1 < w {
      MagIncreasing(f, v + 1, w);
    }
    var e, q := Unpack(f, v);
    MagAt(f, e, q + 1);
    MulSucc(q, Pow2(e - 1));
  }

  lemma MagMonotone(f: nat, v: nat, w: nat)
    requires v <= w
    ensures Mag(f, v) <= Mag(f, w)
  {
    if v < w {
      MagIncreasing(f, v, w);
    }
  }

  /** The exact value determines the rounded word. */
  lemma RoundsToUnique(f: nat, emax: nat, num: nat, den: nat, v: nat, w: nat)
    requires emax >= 3 && den > 0
    requires RoundsTo(f, emax, num, den, v) && RoundsTo(f, emax, num, den, w)
    ensures v == w
  {
    if v < w {
      RoundsToOrdered(f, emax, num, den, v, w);
    } else if w < v {
      RoundsToOrdered(f, emax, num, den, w, v);
    }
  }

  // Two different words cannot both be the rounding: equally near means both even, and then the
  // word between them is nearer.
  lemma RoundsToOrdered(f: nat, emax: nat, num: nat, den: nat, v: nat, w: nat)
    requires emax >= 3 && den > 0 && v < w
    requires RoundsTo(f, emax, num, den, v)
    ensures !RoundsTo(f, emax, num, den, w)
  {
    if v + 1 < w && Dist(f, num, den, v) == Dist(f, num, den, w) {
      BetweenIsNearer(f, num, den, v, w);
    }
  }

  lemma BetweenIsNearer(f: nat, num: nat, den: nat, v: nat, w: nat)
    requires den > 0 && v + 1 < w && Dist(f, num, den, v) == Dist(f, num, den, w)
    ensures Dist(f, num, den, v + 1) < Dist(f, num, den, v)
  {
    MagIncreasing(f, v, v + 1);
    MagIncreasing(f, v + 1, w);
    ScaledLess(Mag(f, v), Mag(f, v + 1), den);
    ScaledLess(Mag(f, v + 1), Mag(f, w), den);
    MiddleIsNearer(num, Mag(f, v) * den, Mag(f, v + 1) * den, Mag(f, w) * den);
  }

  lemma MiddleIsNearer(x: int, a: int, b: int, c: int)
    requires a < b < c && (if x >= a then x - a else a - x) == (if x >= c then x - c else c - x)
    ensures (if x >= b then x - b else b - x) < (if x >= a then x - a else a - x)
  {}

  lemma ScaledLess(a: nat, b: nat, den: nat)
    requires a < b && den > 0
    ensures a * den < b * den
  {
    MulMono(a + 1, b, den);
  }

  /** A word is the rounding of its own magnitude. */
  lemma RoundsToSelf(f: nat, emax: nat, w: nat)
    requires emax >= 3 && w < InfWord(f, emax)
    ensures RoundsTo(f, emax, Mag(f, w), 1, w)
  {
    var p := Pow2(f);
    forall v: nat | v < InfWord(f, emax) && v != w
      ensures Dist(f, Mag(f, w), 1, v) > 0
    {
      if v < w { MagIncreasing(f, v, w); } else { MagIncreasing(f, w, v); }
    }
    LargestBelowOverflow(f, emax);
    MagMonotone(f, w, InfWord(f, emax) - 1);
  }

  lemma LargestBelowOverflow(f: nat, emax: nat)
    requires emax >= 3
    ensures InfWord(f, emax) >= 1 && Mag(f, InfWord(f, emax) - 1) < OverflowAt(f, emax)
  {
    var p, h := Pow2(f), Pow2(emax - 3);
    MulSucc(emax - 2, p);
    MulSucc(emax - 1, p);
    assert PackedWord(f, emax - 1, 2 * p - 1) == InfWord(f, emax) - 1;
    MagAt(f, emax - 1, 2 * p - 1);
    MulAssoc(2 * p - 1, 2, h);
    MulSucc(4 * p - 2, h);
  }

  /** num/den lies in binade e, rho/(den * 2^(e-1)) of an ulp above the significand q. */
  ghost predicate InBinade(f: nat, num: nat, den: nat, e: nat, q: nat, rho: nat)
    requires e >= 1
  {
    && q < Pow2(f + 1) && (e >= 2 ==> q >= Pow2(f))
    && rho < den * Pow2(e - 1)
    && num == q * (den * Pow2(e - 1)) + rho
  }

  /** Ties to even, as a test on the discarded part. */
  predicate RoundsUp(den: nat, e: nat, q: nat, rho: nat)
    requires e >= 1
  {
    2 * rho > den * Pow2(e - 1) || (2 * rho == den * Pow2(e - 1) && q % 2 == 1)
  }

  /** Rounding a significand up or down by comparing the discarded part with half an ulp, and
      packing it so that a carry ripples into the exponent field, is correct rounding: subnormals,
      carries into the next binade and overflow included. */
  lemma RoundSignificand(f: nat, emax: nat, num: nat, den: nat, e: nat, q: nat, rho: nat)
    requires f >= 1 && emax >= 3 && den > 0 && 1 <= e < emax
    requires InBinade(f, num, den, e, q, rho)
    ensures RoundsTo(f, emax, num, den, PackedWord(f, e, if RoundsUp(den, e, q, rho) then q + 1 else q))
  {
    var w := PackedWord(f, e, if RoundsUp(den, e, q, rho) then q + 1 else q);
    forall v: nat | v < InfWord(f, emax)
      ensures Dist(f, num, den, w) <= Dist(f, num, den, v)
      ensures v != w && Dist(f, num, den, w) == Dist(f, num, den, v) ==> w % 2 == 0
    {
      NoneNearer(f, num, den, e, q, rho, v);
    }
    if e < emax - 1 {
      RoundInRange(f, emax, num, den, e, q, rho);
    } else {
      RoundLastBinade(f, emax, num, den, q, rho);
    }
  }

  // The two words around the exact value, in units of 1/den.
  lemma Neighbours(f: nat, num: nat, den: nat, e: nat, q: nat, rho: nat)
    requires f >= 1 && den > 0 && e >= 1 && InBinade(f, num, den, e, q, rho)
    ensures num - Mag(f, PackedWord(f, e, q)) * den == rho
    ensures Mag(f, PackedWord(f, e, q + 1)) * den - num == den * Pow2(e - 1) - rho
  {
    var u := Pow2(e - 1);
    MagAt(f, e, q);
    MagAt(f, e, q + 1);
    MulShuffle(q, u, den);
    MulShuffle(q + 1, u, den);
    MulSucc(q, den * u);
  }

  lemma PackedParity(f: nat, e: nat, q: nat)
    requires f >= 1 && e >= 1
    ensures PackedWord(f, e, q) % 2 == q % 2
  {
    var t := (e - 1) * Pow2(f - 1);
    MulShuffle(e - 1, 2, Pow2(f - 1));
    EvenPlus(PackedWord(f, e, q), t, q);
  }

  lemma EvenPlus(w: int, t: int, q: int)
    requires w == 2 * t + q
    ensures w % 2 == q % 2
  {}

  lemma NoneNearer(f: nat, num: nat, den: nat, e: nat, q: nat, rho: nat, v: nat)
    requires f >= 1 && den > 0 && e >= 1 && InBinade(f, num, den, e, q, rho)
    ensures var w := PackedWord(f, e, if RoundsUp(den, e, q, rho) then q + 1 else q);
            && Dist(f, num, den, w) <= Dist(f, num, den, v)
            && (v != w && Dist(f, num, den, w) == Dist(f, num, den, v) ==> w % 2 == 0)
  {
    Neighbours(f, num, den, e, q, rho);
    PackedParity(f, e, q);
    var lo, hi := PackedWord(f, e, q), PackedWord(f, e, q + 1);
    if v < lo {
      MagIncreasing(f, v, lo);
      ScaledLess(Mag(f, v), Mag(f, lo), den);
    } else if v > hi {
      MagIncreasing(f, hi, v);
      ScaledLess(Mag(f, hi), Mag(f, v), den);
    }
    NearestOfTwo(num, Mag(f, lo) * den, Mag(f, hi) * den, Mag(f, v) * den, den * Pow2(e - 1), rho, q, lo, v);
  }

  lemma NearestOfTwo(num: int, below: int, above: int, other: int, unit: int, rho: int, q: int, lo: int, v: int)
    requires num - below == rho && above - num == unit - rho && 0 <= rho < unit
    requires v < lo ==> other < below
    requires v == lo ==> other == below
    requires v == lo + 1 ==> other == above
    requires v > lo + 1 ==> other > above
    requires lo % 2 == q % 2
    ensures var up := 2 * rho > unit || (2 * rho == unit && q % 2 == 1);
            var mine := if up then above - num else num - below;
            var its := if num >= other then num - other else other - num;
            var w := if up then lo + 1 else lo;
            mine <= its && (v != w && mine == its ==> w % 2 == 0)
  {}

  // Below the last binade, rounding never reaches infinity and the value is below the threshold.
  lemma RoundInRange(f: nat, emax: nat, num: nat, den: nat, e: nat, q: nat, rho: nat)
    requires f >= 1 && emax >= 3 && den > 0 && 1 <= e < emax - 1
    requires InBinade(f, num, den, e, q, rho)
    ensures PackedWord(f, e, q + 1) < InfWord(f, emax)
    ensures num < OverflowAt(f, emax) * den
  {
    var p, u, h := Pow2(f), Pow2(e - 1), Pow2(emax - 3);
    MulSucc(e - 1, p);
    MulSucc(e, p);
    ScaledLess(e + 1, emax, p);
    Pow2Monotone(e - 1, emax - 3);
    MulMono2(u, h, den);
    BelowThreshold(p, den * u, den * h, q, rho);
    MulShuffle(4 * p - 1, h, den);
  }

  lemma BelowThreshold(p: nat, unit: nat, dh: nat, q: nat, rho: nat)
    requires p >= 1 && q < 2 * p && rho < unit <= dh
    ensures q * unit + rho < (4 * p - 1) * dh
  {
    MulMono(q + 1, 2 * p, unit);
    MulSucc(q, unit);
    MulMono2(unit, dh, 2 * p);
    MulMono(2 * p, 4 * p - 1, dh);
  }

  // In the last binade, rounding up the largest significand is infinity, at exactly the threshold.
  lemma RoundLastBinade(f: nat, emax: nat, num: nat, den: nat, q: nat, rho: nat)
    requires f >= 1 && emax >= 3 && den > 0
    requires InBinade(f, num, den, emax - 1, q, rho)
    ensures var w := PackedWord(f, emax - 1, if RoundsUp(den, emax - 1, q, rho) then q + 1 else q);
            && w <= InfWord(f, emax)
            && (w == InfWord(f, emax) <==> num >= OverflowAt(f, emax) * den)
  {
    var p, h := Pow2(f), Pow2(emax - 3);
    MulShuffle(den, 2, h);
    MulSucc(emax - 2, p);
    MulSucc(emax - 1, p);
    MulShuffle(4 * p - 1, h, den);
    LastBinadeThreshold(p, den * h, q, rho);
  }

  lemma LastBinadeThreshold(p: nat, dh: nat, q: nat, rho: nat)
    requires p >= 1 && q < 2 * p && rho < 2 * dh
    ensures q * (2 * dh) + rho >= (4 * p - 1) * dh
            <==> q == 2 * p - 1 && rho >= dh
  {
    MulShuffle(q, 2, dh);
    MulSucc(4 * p - 2, dh);
    if q < 2 * p - 1 {
      MulMono(2 * q + 2, 4 * p - 2, dh);
      MulSucc(2 * q, dh);
      MulSucc(2 * q + 1, dh);
    }
  }
}
