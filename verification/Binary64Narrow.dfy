// Binary64 to binary32, and the round trip through the wider format.

module Binary64Narrow {
  import opened Bits
  import opened Ieee754
  import opened Binary64Word
  import opened Binary64Round
  import opened Binary64Mul
  import opened Binary64Convert

  // The exact value is (q * K + r) * t in units of 1/den, and K * t is one ulp of the narrow format.
  lemma NarrowSignificand(num: nat, den: nat, e: nat, q: nat, r: nat, K: nat, t: nat)
    requires den > 0 && t > 0 && 1 <= e < 0xff && q < 0x100_0000 && (e >= 2 ==> q >= 0x80_0000)
    requires r < K && num == (q * K + r) * t && den * Pow2(e - 1) == K * t
    ensures var up := 2 * r > K || (2 * r == K && q % 2 == 1);
            var w := (e - 1) * 0x80_0000 + if up then q + 1 else q;
            w <= 0x7f80_0000 && Rounds32(num, den, w)
  {
    hide *;
    MulDist(q * K, r, t);
    MulAssoc(q, K, t);
    MulOrder(r, K, t);
    MulMono(0, r, t);
    MulOrder(2 * r, K, t);
    MulOrder(K, 2 * r, t);
    MulAssoc(2, r, t);
    RoundInBinade32(num, den, e, q, r * t);
    RoundsUpIs(den, e, q, r * t);
  }

  lemma RoundInBinade32(num: nat, den: nat, e: nat, q: nat, rho: nat)
    requires den > 0 && 1 <= e < 0xff && q < 0x100_0000 && (e >= 2 ==> q >= 0x80_0000)
    requires rho < den * Pow2(e - 1) && num == q * (den * Pow2(e - 1)) + rho
    ensures var w := (e - 1) * 0x80_0000 + if RoundsUp(den, e, q, rho) then q + 1 else q;
            w <= 0x7f80_0000 && Rounds32(num, den, w)
  {
    Pow2At23();
    Pow2Up(23, 1);
    RoundSignificand(23, 0xff, num, den, e, q, rho);
  }

  // ---------------------------------------------------------------------------------------------
  // The four ranges of the exponent; M is the 53-bit significand.

  lemma NormalValue(d: u64, be: nat, f: nat)
    requires 1 <= be < 0x7ff && f < IMPL && Abs(d) == be * IMPL + f
    ensures Mag64(d) == (IMPL + f) * Pow2(be - 1)
  {
    hide Mag;
    MagOfFields(be, IMPL + f);
  }

  lemma NarrowNormal(N: nat, be: nat, man: nat, drop: nat)
    requires 897 <= be < 1151 && man < 0x80_0000 && drop < 0x2000_0000
    requires N == ((man + 0x80_0000) * 0x2000_0000 + drop) * Pow2(be - 1)
    ensures var up := drop > 0x1000_0000 || (drop == 0x1000_0000 && man % 2 == 1);
            var w := (be - 896) * 0x80_0000 + man + if up then 1 else 0;
            w <= 0x7f80_0000 && Rounds32(N, Pow2(925), w)
  {
    hide *;
    Pow2At29();
    Pow2Add(925, be - 897);
    Pow2Add(29, be - 1);
    NarrowSignificand(N, Pow2(925), be - 896, man + 0x80_0000, drop, 0x2000_0000, Pow2(be - 1));
  }

  lemma NarrowSubnormal(N: nat, be: nat, sub: nat, lost: nat, drop: nat, sh: nat)
    requires 873 <= be <= 896 && sh == 897 - be && lost < Pow2(sh) && drop < 0x2000_0000
    requires 0x80_0000 <= sub * Pow2(sh) + lost < 0x100_0000
    requires N == ((sub * Pow2(sh) + lost) * 0x2000_0000 + drop) * Pow2(be - 1)
    ensures var half := Pow2(sh - 1);
            var up := lost > half || (lost == half && (sub % 2 == 1 || drop != 0));
            Rounds32(N, Pow2(925), if up then sub + 1 else sub) && sub + 1 <= 0x80_0000
  {
    hide *;
    Pow2At29();
    var K := Pow2(sh) * 0x2000_0000;
    Pow2Add(sh, 29);
    Pow2Add(sh + 29, be - 1);
    Pow2Small();
    MulShuffle(sub, Pow2(sh), 0x2000_0000);
    Pow2Up(sh - 1, 1);
    SubBound(sub, Pow2(sh), lost);
    NarrowSignificand(N, Pow2(925), 1, sub, lost * 0x2000_0000 + drop, K, Pow2(be - 1));
  }

  lemma SubBound(sub: nat, p: nat, lost: nat)
    requires p >= 2 && sub * p + lost < 0x100_0000
    ensures sub < 0x80_0000
  {
    if sub >= 0x80_0000 { MulMono(0x80_0000, sub, p); }
  }

  // Below half the smallest binary32 subnormal.
  lemma NarrowTiny(N: nat)
    requires N < Pow2(924)
    ensures Rounds32(N, Pow2(925), 0)
  {
    hide *;
    Pow2Up(924, 1);
    Pow2Small();
    NarrowSignificand(N, Pow2(925), 1, 0, N, Pow2(925), 1);
  }

  lemma TinyNormal(N: nat, be: nat, M: nat)
    requires 1 <= be <= 872 && M < 0x20_0000_0000_0000 && N == M * Pow2(be - 1)
    ensures N < Pow2(924)
  {
    hide *;
    Pow2At52();
    Pow2Up(52, 1);
    Pow2Add(53, be - 1);
    Pow2Monotone(be + 52, 924);
    ScaledLess(M, Pow2(53), Pow2(be - 1));
  }

  lemma TinySubnormal(m: nat)
    requires m < 0x10_0000_0000_0000
    ensures m < Pow2(924)
  {
    hide *;
    Pow2At52();
    Pow2Monotone(52, 924);
  }

  lemma NarrowOverflow(N: nat, be: nat, M: nat)
    requires be >= 1151 && M >= 0x10_0000_0000_0000 && N == M * Pow2(be - 1)
    ensures Rounds32(N, Pow2(925), 0x7f80_0000)
  {
    hide *;
    Pow2At52();
    Pow2Add(52, be - 1);
    MulMono(0x10_0000_0000_0000, M, Pow2(be - 1));
    Pow2Monotone(1202, be + 51);
    Pow2Add(25, 252);
    Pow2Add(277, 925);
    MulMono(Pow2(25) - 1, Pow2(25), Pow2(252));
    MulMono((Pow2(25) - 1) * Pow2(252), Pow2(277), Pow2(925));
    InfiniteRounds32(N, Pow2(925));
  }

  lemma InfiniteRounds32(num: nat, den: nat)
    requires num >= (Pow2(25) - 1) * Pow2(252) * den
    ensures Rounds32(num, den, 0x7f80_0000)
  {
    Pow2At23();
  }

  // ---------------------------------------------------------------------------------------------
  // The words of the source.

  lemma FractionParts(d: u64)
    ensures BitAnd(d, FRAC) < 0x10_0000_0000_0000
    ensures Shr(BitAnd(d, FRAC), 29) < 0x80_0000
    ensures BitAnd(d % 0x1_0000_0000, 0x1fff_ffff) < 0x2000_0000
    ensures BitAnd(d, FRAC) == Shr(BitAnd(d, FRAC), 29) * 0x2000_0000 + BitAnd(d % 0x1_0000_0000, 0x1fff_ffff)
  {
    hide *;
    Masks();
    Fields(d);
    Pow2At29();
    ShrIsHi(BitAnd(d, FRAC), 29);
    HiLoDivMod(BitAnd(d, FRAC), 29);
    AndMask(d % 0x1_0000_0000, 29);
    HiLoDivMod(d % 0x1_0000_0000, 29);
    NestedModulo(d);
  }

  lemma NestedModulo(d: nat)
    ensures d % 0x1_0000_0000 % 0x2000_0000 == d % 0x10_0000_0000_0000 % 0x2000_0000
  {
    LastDigits(d, 0x1_0000_0000, 8);
    LastDigits(d, 0x10_0000_0000_0000, 0x80_0000);
  }

  lemma LastDigits(d: nat, m: nat, k: nat)
    requires m == k * 0x2000_0000 && k > 0
    ensures d % m % 0x2000_0000 == d % 0x2000_0000
  {
    var q, r := d / m, d % m;
    var s, t := r / 0x2000_0000, r % 0x2000_0000;
    assert d == q * m + r;
    MulShuffle(q, k, 0x2000_0000);
    MulDist(q * k, s, 0x2000_0000);
    DivUnique(d, 0x2000_0000, q * k + s, t);
  }

  lemma OrFields32(sign: u32, e: nat, m: nat)
    requires (sign == 0 || sign == 0x8000_0000) && e < 0x100 && m < 0x80_0000
    ensures Shl32(e, 23) == e * 0x80_0000 && sign + e * 0x80_0000 + m < 0x1_0000_0000
    ensures BitOr(sign, e * 0x80_0000) == sign + e * 0x80_0000
    ensures BitOr(sign + e * 0x80_0000, m) == sign + e * 0x80_0000 + m
  {
    hide *;
    Pow2At23();
    HiLoUnique(sign + e * 0x80_0000, 23, e + if sign == 0 then 0 else 0x100, 0);
    Pow2Tens(3);
    Pow2Up(30, 1);
    HiLoUnique(sign, 31, if sign == 0 then 0 else 1, 0);
    OrDisjoint(sign, e * 0x80_0000, 31);
    OrDisjoint(sign + e * 0x80_0000, m, 23);
    Shl32Exact(e, 23);
  }

  // The two tests on the dropped bits say whether they are more than half, or exactly half and odd.
  lemma DroppedTests(drop: u32, man: u32)
    requires drop < 0x2000_0000
    ensures (BitAnd(drop, 0x1000_0000) != 0 && (BitAnd(drop, 0xfff_ffff) != 0 || BitAnd(man, 1) != 0))
       <==> drop > 0x1000_0000 || (drop == 0x1000_0000 && man % 2 == 1)
  {
    hide *;
    Pow2Tens(2);
    Pow2Up(20, 5);
    Pow2Up(25, 3);
    SingleBit(drop, 28);
    AndMask(drop, 28);
    HiLo(drop, 28);
    SmallBits(man);
    TopQuotient(drop, Hi(drop, 28), Lo(drop, 28), 0x1000_0000);
  }

  lemma ShiftedOut(man: u32, sh: nat)
    requires man < 0x80_0000 && 1 <= sh <= 24
    ensures BitOr(man, 0x80_0000) == man + 0x80_0000
    ensures Shl32(1, sh) == Pow2(sh) > 1 && Shl32(1, sh - 1) == Pow2(sh - 1)
    ensures var full := man + 0x80_0000;
            && full == Shr(full, sh) * Pow2(sh) + BitAnd(full, Pow2(sh) - 1)
            && BitAnd(full, Pow2(sh) - 1) < Pow2(sh)
  {
    hide *;
    Pow2At23();
    OrSwap(man, 0x80_0000);
    HiLoUnique(0x80_0000, 23, 1, 0);
    OrDisjoint(0x80_0000, man, 23);
    Pow2Up(23, 1);
    Pow2Monotone(sh, 24);
    Pow2Monotone(sh - 1, 24);
    Pow2Up(sh - 1, 1);
    Shl32Exact(1, sh);
    Shl32Exact(1, sh - 1);
    var full := man + 0x80_0000;
    ShrIsHi(full, sh);
    AndMask(full, sh);
    HiLo(full, sh);
  }

  // ---------------------------------------------------------------------------------------------
  // Each range of the exponent, as the words it returns.

  lemma NarrowedFinite(d: u64, sign: u32, w: nat)
    requires IsFinite(d) && w <= 0x7f80_0000 && Rounds32(Mag64(d), Pow2(925), w)
    requires sign == if d >= SIGN then SIGN32 else 0
    ensures sign + w < 0x1_0000_0000 && IsNarrowed(d, sign + w)
  {
    hide Mag64, Rounds32, Pow2;
  }

  lemma NarrowedSpecial(d: u64, sign: u32, f: nat, man: nat)
    requires Abs(d) == INF + f && f < IMPL && man == f / 0x2000_0000
    requires sign == if d >= SIGN then SIGN32 else 0
    ensures f == 0 ==> IsNarrowed(d, sign + INF32)
    ensures f != 0 ==> QuietFraction(man) < 0x80_0000 && IsNarrowed(d, sign + INF32 + QuietFraction(man))
  {
    hide Mag64, Rounds32, Pow2;
  }

  lemma QuietFractionOr(sign: u32, man: nat)
    requires (sign == 0 || sign == 0x8000_0000) && man < 0x80_0000
    ensures BitOr(sign + 0x7f80_0000 + man, 0x40_0000) == sign + 0x7f80_0000 + QuietFraction(man)
  {
    QuietFractionIs(man);
    hide *;
    Pow2At23();
    Pow2Up(22, 1);
    var h := (if sign == 0 then 0x1fe else 0x3fe) + if man < 0x40_0000 then 0 else 1;
    HiLoUnique(sign + 0x7f80_0000 + man, 22, h, if man < 0x40_0000 then man else man - 0x40_0000);
    SingleBit(sign + 0x7f80_0000 + man, 22);
  }

  lemma QuietFractionIs(man: nat)
    ensures QuietFraction(man) == if man < 0x40_0000 then man + 0x40_0000 else man
  {}

  lemma SpecialWord(d: u64, sign: u32, f: u64, man: u32)
    requires Abs(d) == INF + f && f < IMPL && man == f / 0x2000_0000
    requires sign == if d >= SIGN then SIGN32 else 0
    ensures BitOr(sign, 0x7f80_0000) < 0x1_0000_0000 && BitOr(BitOr(sign, 0x7f80_0000), man) < 0x1_0000_0000
    ensures var r := BitOr(BitOr(BitOr(sign, 0x7f80_0000), man), if f != 0 then 0x40_0000 else 0);
            r < 0x1_0000_0000 && IsNarrowed(d, r)
  {
    Constants32();
    hide *;
    Masks();
    NarrowedSpecial(d, sign, f, man);
    OrFields32(sign, 0xff, man);
    QuietFractionOr(sign, man);
    SmallBits(sign + 0x7f80_0000);
  }

  lemma NarrowedNormal(d: u64, sign: u32, be: nat, man: nat, drop: nat)
    requires 897 <= be < 1151 && man < 0x80_0000 && drop < 0x2000_0000
    requires Abs(d) == be * IMPL + man * 0x2000_0000 + drop
    requires sign == if d >= SIGN then SIGN32 else 0
    ensures var up := drop > 0x1000_0000 || (drop == 0x1000_0000 && man % 2 == 1);
            var r := sign + ((be - 896) * 0x80_0000 + man + if up then 1 else 0);
            r < 0x1_0000_0000 && IsNarrowed(d, r)
  {
    hide *;
    Masks();
    NormalValue(d, be, man * 0x2000_0000 + drop);
    NarrowNormal(Mag64(d), be, man, drop);
    FiniteByFields(d, be, man * 0x2000_0000 + drop);
    var up := drop > 0x1000_0000 || (drop == 0x1000_0000 && man % 2 == 1);
    NarrowedFinite(d, sign, (be - 896) * 0x80_0000 + man + if up then 1 else 0);
  }

  lemma NarrowedSubnormal(d: u64, sign: u32, be: nat, man: nat, drop: nat, sub: nat, lost: nat, sh: nat)
    requires 873 <= be <= 896 && sh == 897 - be && man < 0x80_0000 && drop < 0x2000_0000
    requires man + 0x80_0000 == sub * Pow2(sh) + lost && lost < Pow2(sh)
    requires Abs(d) == be * IMPL + man * 0x2000_0000 + drop
    requires sign == if d >= SIGN then SIGN32 else 0
    ensures var half := Pow2(sh - 1);
            var up := lost > half || (lost == half && (sub % 2 == 1 || drop != 0));
            var r := sign + if up then sub + 1 else sub;
            r < 0x1_0000_0000 && sub + 1 <= 0x80_0000 && IsNarrowed(d, r)
  {
    hide *;
    Masks();
    NormalValue(d, be, man * 0x2000_0000 + drop);
    NarrowSubnormal(Mag64(d), be, sub, lost, drop, sh);
    FiniteByFields(d, be, man * 0x2000_0000 + drop);
    var up := lost > Pow2(sh - 1) || (lost == Pow2(sh - 1) && (sub % 2 == 1 || drop != 0));
    NarrowedFinite(d, sign, if up then sub + 1 else sub);
  }

  // Outside those ranges the result is a zero or an infinity.
  lemma NarrowedOutside(d: u64, sign: u32, be: nat, f: nat)
    requires be <= 872 || 1151 <= be < 0x7ff
    requires f < IMPL && Abs(d) == be * IMPL + f
    requires sign == if d >= SIGN then SIGN32 else 0
    ensures be <= 872 ==> IsNarrowed(d, sign)
    ensures be >= 1151 ==> IsNarrowed(d, sign + INF32)
  {
    Constants32();
    hide *;
    Masks();
    FiniteByFields(d, be, f);
    if be >= 1 { NormalValue(d, be, f); }
    if be >= 1151 {
      NarrowOverflow(Mag64(d), be, IMPL + f);
      NarrowedFinite(d, sign, 0x7f80_0000);
    } else {
      if be == 0 {
        SubnormalValue(d);
        TinySubnormal(f);
      } else {
        TinyNormal(Mag64(d), be, IMPL + f);
      }
      NarrowTiny(Mag64(d));
      NarrowedFinite(d, sign, 0);
    }
  }

  lemma SubnormalValue(d: u64)
    requires Abs(d) < IMPL
    ensures Mag64(d) == Abs(d)
  {
    SubnormalMagnitude(Abs(d));
  }

  /** The branch for results in the normal range. */
  method NarrowToNormal(ghost d: u64, sign: u32, e: u32, man: u32, drop: u32) returns (bits: u32)
    requires 1 <= e < 0xff && man < 0x80_0000 && drop < 0x2000_0000
    requires Abs(d) == (e + 896) * IMPL + man * 0x2000_0000 + drop
    requires sign == if d >= SIGN then SIGN32 else 0
    ensures IsNarrowed(d, bits)
  {
    Constants32();
    hide *;
    NarrowedNormal(d, sign, e + 896, man, drop);
    OrFields32(sign, e, man);
    DroppedTests(drop, man);
    bits := BitOr(BitOr(sign, Shl32(e, 23)), man);
    if BitAnd(drop, 0x1000_0000) != 0 && (BitAnd(drop, 0xfff_ffff) != 0 || BitAnd(man, 1) != 0) {
      bits := bits + 1;
    }
  }

  /** The branch for results in the subnormal range. */
  method NarrowToSubnormal(ghost d: u64, sign: u32, e: int, man: u32, drop: u32) returns (bits: u32)
    requires -24 < e <= 0 && man < 0x80_0000 && drop < 0x2000_0000
    requires Abs(d) == (e + 896) * IMPL + man * 0x2000_0000 + drop
    requires sign == if d >= SIGN then SIGN32 else 0
    ensures IsNarrowed(d, bits)
  {
    Constants32();
    hide *;
    ShiftedOut(man, 1 - e);
    var full: u32 := BitOr(man, 0x80_0000);
    var sh := 1 - e;
    var lost: u32 := BitAnd(full, Shl32(1, sh) - 1);
    var halfb := Shl32(1, sh - 1);
    var sub: u32 := Shr(full, sh);
    NarrowedSubnormal(d, sign, e + 896, man, drop, sub, lost, sh);
    SmallBits(sub);
    if lost > halfb || (lost == halfb && (BitAnd(sub, 1) != 0 || drop != 0)) {
      sub := sub + 1;
    }
    OrBelowSign(sign, sub);
    bits := BitOr(sign, sub);
  }

  method ToFloat(d: u64) returns (bits: u32)
    ensures IsNarrowed(d, bits)
  {
    Constants32();
    hide *;
    Masks();
    SignDown(d);
    Fields(d);
    FractionParts(d);
    var sign := BitAnd(Shr(d, 32), SIGN32);
    var be: int := BitAnd(Shr(d, 52), 0x7ff);
    var man: u32 := Shr(BitAnd(d, FRAC), 29);
    var drop: u32 := BitAnd(d % 0x1_0000_0000, 0x1fff_ffff);
    if be == 0x7ff {
      SpecialWord(d, sign, BitAnd(d, FRAC), man);
      bits := BitOr(BitOr(BitOr(sign, 0x7f80_0000), man), if BitAnd(d, FRAC) != 0 then 0x40_0000 else 0);
    } else if be == 0 {
      NarrowedOutside(d, sign, be, BitAnd(d, FRAC));
      bits := sign;
    } else {
      var e: int := be - 1023 + 127;
      if e >= 0xff {
        NarrowedOutside(d, sign, be, BitAnd(d, FRAC));
        OrFields32(sign, 0xff, 0);
        bits := BitOr(sign, 0x7f80_0000);
      } else if e > 0 {
        bits := NarrowToNormal(d, sign, e, man, drop);
      } else if e > -24 {
        bits := NarrowToSubnormal(d, sign, e, man, drop);
      } else {
        NarrowedOutside(d, sign, be, BitAnd(d, FRAC));
        bits := sign;
      }
    }
  }

  lemma OrBelowSign(sign: u32, w: u32)
    requires (sign == 0 || sign == 0x8000_0000) && w < 0x8000_0000
    ensures BitOr(sign, w) == sign + w
  {
    hide *;
    Pow2Tens(3);
    Pow2Up(30, 1);
    HiLoUnique(sign, 31, if sign == 0 then 0 else 1, 0);
    OrDisjoint(sign, w, 31);
  }

  // ---------------------------------------------------------------------------------------------
  // There and back.

  lemma RoundsToScaled(f: nat, emax: nat, num: nat, k: nat, w: nat)
    requires emax >= 3 && k > 0 && RoundsTo(f, emax, num, 1, w)
    ensures num * k >= 0 && RoundsTo(f, emax, num * k, k, w)
  {
    MulMono(0, num, k);
    MulOrder(num, OverflowAt(f, emax), k);
    ScaledDist(f, num, k, w);
    forall v: nat | v < InfWord(f, emax)
      ensures Dist(f, num, 1, w) <= Dist(f, num, 1, v) ==> Dist(f, num * k, k, w) <= Dist(f, num * k, k, v)
      ensures Dist(f, num * k, k, w) == Dist(f, num * k, k, v) ==> Dist(f, num, 1, w) == Dist(f, num, 1, v)
    {
      ScaledDist(f, num, k, v);
      MulOrder(Dist(f, num, 1, v), Dist(f, num, 1, w), k);
    }
  }

  lemma ScaledDist(f: nat, num: nat, k: nat, w: nat)
    requires num * k >= 0
    ensures Dist(f, num * k, k, w) == Dist(f, num, 1, w) * k
  {
    hide Mag;
    var m: int := Mag(f, w);
    var d: int := -m + num;
    MulDist(d, m, k);
    MinusTimes(d, k);
  }

  /** Widening and narrowing again returns every bit pattern, except that a signalling NaN comes
      back quiet. */
  lemma RoundTrip(u: u32, d: u64, r: u32)
    requires IsWidened(u, d) && IsNarrowed(d, r)
    ensures r == if IsNaN32(u) then Quieted32(u) else u
  {
    hide Mag64, Rounds32, Pow2, Mag;
    if !IsNaN32(u) && Abs32(u) != INF32 {
      NumberRoundTrip(u, Mag64(d), r);
    }
  }

  lemma NumberRoundTrip(u: u32, N: nat, r: u32)
    requires Abs32(u) < INF32 && N == Mag(23, Abs32(u)) * Pow2(925) && Rounds32(N, Pow2(925), Abs32(r))
    ensures Abs32(r) == Abs32(u)
  {
    hide Mag, OverflowAt, Dist;
    Pow2At23();
    RoundsToSelf(23, 0xff, Abs32(u));
    RoundsToScaled(23, 0xff, Mag(23, Abs32(u)), Pow2(925), Abs32(u));
    RoundsToUnique(23, 0xff, N, Pow2(925), Abs32(u), Abs32(r));
  }
}
