// Multiplication: the exact 106-bit product, jammed to 63 bits and rounded once.

module Binary64Mul {
  import opened Bits
  import opened Ieee754
  import opened Binary64Word
  import opened Binary64Round
  import opened WideMultiply

  /** The exact product of two finite magnitudes, in units of 2^-2148: 2^1074 of them make one
      smallest subnormal. */
  ghost function ExactProduct(a: u64, b: u64): nat {
    var x, y := Mag64(a), Mag64(b);
    MulMono(0, x, y);
    x * y
  }

  /** Sections 5.4.1, 6.1 to 6.3 and 7.2: the product of any two data. */
  ghost predicate IsProduct(a: u64, b: u64, r: u64) {
    if IsNaN(a) || IsNaN(b) then r == NaNResult(a, b)
    else if IsInf(a) || IsInf(b) then
      if Abs(a) == 0 || Abs(b) == 0 then r == DNAN
      else Abs(r) == INF && (r >= SIGN <==> SignOf(a) != SignOf(b))
    else Rounds64(ExactProduct(a, b), Pow2(1074), Abs(r)) && (r >= SIGN <==> SignOf(a) != SignOf(b))
  }

  // ---------------------------------------------------------------------------------------------
  // A finite nonzero operand, normalised: 2^52 <= m < 2^53 and magnitude m * 2^(e-1), e may be <= 0.

  ghost predicate Normalised(w: u64, e: int, m: nat) {
    -51 <= e < 0x7ff && IMPL <= m < 2 * IMPL && Mag64(w) * Pow2(52) == m * Pow2(e + 51)
  }

  lemma NormalOperand(w: u64, e: nat, m0: nat)
    requires 1 <= e < 0x7ff && m0 < IMPL && Abs(w) == e * IMPL + m0
    ensures Normalised(w, e, IMPL + m0) && Mag64(w) > 0
  {
    hide PackedWord, Mag;
    Pow2At52();
    Pow2Up(52, 1);
    MagAt(52, e, IMPL + m0);
    PackedNormal(e, m0);
    Pow2Add(e - 1, 52);
    MulAssoc(IMPL + m0, Pow2(e - 1), Pow2(52));
    MulOrder(0, IMPL + m0, Pow2(e - 1));
  }

  lemma PackedNormal(e: nat, m0: nat)
    requires e >= 1
    ensures PackedWord(52, e, IMPL + m0) == e * IMPL + m0
  {
    Pow2At52();
  }

  lemma SubnormalOperand(w: u64, lz: int)
    requires 0 < Abs(w) < IMPL && lz == Clz64(Abs(w)) - 11
    ensures 0 <= lz < 64 && Shl64(Abs(w), lz) == Abs(w) * Pow2(lz)
    ensures Normalised(w, 1 - lz, Abs(w) * Pow2(lz)) && Mag64(w) > 0
  {
    var m := Abs(w);
    SubnormalMagnitude(m);
    SubnormalZeros(m, BitLength(m));
    SubnormalScaled(w, m, lz);
    Shl64Exact(m, lz);
  }

  lemma SubnormalScaled(w: u64, m: nat, lz: nat)
    requires Mag64(w) == m && lz <= 52 && IMPL <= m * Pow2(lz) < 2 * IMPL
    ensures Normalised(w, 1 - lz, m * Pow2(lz))
  {
    hide Mag64;
    Pow2Add(lz, 52 - lz);
    MulAssoc(m, Pow2(lz), Pow2(52 - lz));
  }

  lemma SubnormalMagnitude(m: nat)
    requires m < IMPL
    ensures Mag(52, m) == m
  {
    Pow2At52();
    HiLoUnique(m, 52, 0, m);
  }

  lemma SubnormalZeros(m: nat, n: nat)
    requires 0 < m < IMPL && n == BitLength(m)
    ensures 1 <= n <= 52 && IMPL <= m * Pow2(53 - n) < 2 * IMPL
  {
    hide *;
    Masks();
    Pow2At52();
    Pow2Up(52, 1);
    BitLengthBounds(m);
    BitLengthAtMost(m, 52);
    Pow2Add(n - 1, 53 - n);
    Pow2Add(n, 53 - n);
    MulMono(Pow2(n - 1), m, Pow2(53 - n));
    ScaledLess(m, Pow2(n), Pow2(53 - n));
  }

  // ---------------------------------------------------------------------------------------------
  // The product.

  // The two words of the product, shifted together: bits 43 (or 42) and up, and the bits below.
  lemma ProductWords(p: nat, hi: u64, lo: u64, k: nat)
    requires 42 <= k <= 43
    requires p == hi * 0x1_0000_0000_0000_0000 + lo && hi < 0x400_0000_0000
    ensures BitOr(Shl64(hi, 64 - k), Shr(lo, k)) == Hi(p, k) < 0x1_0000_0000_0000_0000
    ensures BitAnd(lo, Pow2(k) - 1) == Lo(p, k)
  {
    hide *;
    var P, K := Pow2(64 - k), Pow2(k);
    ShiftPowers(k);
    ShrIsHi(lo, k);
    HiLo(lo, k);
    AndMask(lo, k);
    var h, l := Hi(lo, k), Lo(lo, k);
    WordBounds(hi, lo, h, l, P, K);
    HiLoUnique(p, k, hi * P + h, l);
    HiLoUnique(hi * P, 64 - k, hi, 0);
    OrDisjoint(hi * P, h, 64 - k);
    Shl64Exact(hi, 64 - k);
  }

  lemma ShiftPowers(k: nat)
    requires 42 <= k <= 43
    ensures Pow2(64 - k) * Pow2(k) == 0x1_0000_0000_0000_0000 && Pow2(64 - k) <= 0x40_0000
  {
    hide *;
    Pow2At64();
    Pow2Add(64 - k, k);
    Pow2Monotone(64 - k, 22);
    Pow2Tens(2);
    Pow2Up(20, 2);
  }

  lemma WordBounds(hi: nat, lo: nat, h: nat, l: nat, P: nat, K: nat)
    requires hi < 0x400_0000_0000 && P * K == 0x1_0000_0000_0000_0000 && 0 < P <= 0x40_0000
    requires lo == h * K + l && l < K && lo < 0x1_0000_0000_0000_0000
    ensures h < P && 0 <= hi * P && hi * P + h < 0x1_0000_0000_0000_0000
    ensures hi * 0x1_0000_0000_0000_0000 + lo == (hi * P + h) * K + l
  {
    if h >= P { MulMono(P, h, K); }
    MulMono(hi + 1, 0x400_0000_0000, P);
    MulSucc(hi, P);
    MulMono(0, hi, P);
    MulAssoc(hi, P, K);
    MulDist(hi * P, h, K);
  }

  lemma Shl64Exact(x: u64, s: nat)
    requires s < 64 && x * Pow2(s) < 0x1_0000_0000_0000_0000
    ensures Shl64(x, s) == x * Pow2(s)
  {}

  // A product of normalised significands, jammed to 63 bits.
  lemma JammedProduct(p: nat, k: nat, m: nat)
    requires 42 <= k <= 43 && m == Jam(Hi(p, k), Lo(p, k) != 0)
    requires if k == 43 then Pow2(105) <= p < Pow2(106) else Pow2(104) <= p < Pow2(105)
    ensures 0x4000_0000_0000_0000 <= m < SIGN && Agree(p, Pow2(k), m, 4)
  {
    hide *;
    Masks();
    HiLo(p, k);
    Pow2At62();
    Pow2At63();
    Pow2Add(62, k);
    Pow2Add(63, k);
    var h := Hi(p, k);
    MulOrder(h + 1, Pow2(62), Pow2(k));
    MulSucc(h, Pow2(k));
    if h < Pow2(62) { MulMono(h + 1, Pow2(62), Pow2(k)); }
    if h >= Pow2(63) { MulMono(Pow2(63), h, Pow2(k)); }
    JamBetween(h, Lo(p, k) != 0);
    AgreeJam(p, Pow2(k), h, Lo(p, k));
    AgreeCoarsen(p, Pow2(k), m, 2, 2);
  }

  lemma JamBetween(q: nat, lost: bool)
    ensures q <= Jam(q, lost) <= q + 1 && (q % 2 == 1 ==> Jam(q, lost) == q)
  {}

  // What the product represents: the powers of two of the two operands, of the unit and of the
  // guard bits cancel.
  lemma ProductScale(a: u64, ea: int, ma: nat, b: u64, eb: int, mb: nat, p: nat, k: nat, m: nat)
    requires Normalised(a, ea, ma) && Normalised(b, eb, mb) && 42 <= k <= 43 && p == ma * mb
    requires 0x4000_0000_0000_0000 <= m < SIGN && Agree(p, Pow2(k), m, 4)
    ensures Represents(ExactProduct(a, b), Pow2(1074), ea + eb - 1023 + k - 42, m)
  {
    hide *;
    NormalisedElim(a, ea, ma);
    NormalisedElim(b, eb, mb);
    MagnitudeProduct(a, ea, ma, b, eb, mb, p);
    ScaledProduct(ExactProduct(a, b), p, ea + eb + 102, k, m, ea + eb - 1023 + k - 42);
  }

  lemma NormalisedElim(w: u64, e: int, m: nat)
    requires Normalised(w, e, m)
    ensures -51 <= e < 0x7ff && IMPL <= m < 2 * IMPL && Mag64(w) * Pow2(52) == m * Pow2(e + 51)
  {}

  lemma ScaledProduct(N: nat, p: nat, t: nat, k: nat, m: nat, e: int)
    requires N * Pow2(104) == p * Pow2(t) && e == t + k - 1167
    requires 0x4000_0000_0000_0000 <= m < SIGN && Agree(p, Pow2(k), m, 4)
    ensures Represents(N, Pow2(1074), e, m)
  {
    hide *;
    if e >= 1 {
      ScaleUp(N, p, t, k, e - 1);
      AgreeScale(p, Pow2(k), N * 0x400, Pow2(1074) * Pow2(e - 1), m, 4);
      RepresentsAbove(N, Pow2(1074), e, m);
    } else {
      ScaleDown(N, p, t, k, 1 - e);
      MulMono(0, N * 0x400, Pow2(1 - e));
      AgreeScale(p, Pow2(k), N * 0x400 * Pow2(1 - e), Pow2(1074), m, 4);
      RepresentsBelow(N, Pow2(1074), e, m);
    }
  }

  lemma RepresentsAbove(num: nat, den: nat, e: int, m: nat)
    requires e >= 1 && 0x4000_0000_0000_0000 <= m < SIGN && Agree(num * 0x400, den * Pow2(e - 1), m, 4)
    ensures Represents(num, den, e, m)
  {}

  lemma RepresentsBelow(num: nat, den: nat, e: int, m: nat)
    requires e <= 0 && m < SIGN && Agree(num * 0x400 * Pow2(1 - e), den, m, 4)
    ensures Represents(num, den, e, m)
  {}

  lemma MagnitudeProduct(a: u64, ea: int, ma: nat, b: u64, eb: int, mb: nat, p: nat)
    requires ea >= -51 && eb >= -51 && p == ma * mb
    requires Mag64(a) * Pow2(52) == ma * Pow2(ea + 51) && Mag64(b) * Pow2(52) == mb * Pow2(eb + 51)
    ensures ExactProduct(a, b) * Pow2(104) == p * Pow2(ea + eb + 102)
  {
    ExactProductIs(a, b);
    hide *;
    var A, B, q := Mag64(a), Mag64(b), Pow2(52);
    Pow2Add(52, 52);
    Pow2Add(ea + 51, eb + 51);
    FourFactors(A, q, B, q);
    FourFactors(ma, Pow2(ea + 51), mb, Pow2(eb + 51));
  }

  lemma ExactProductIs(a: u64, b: u64)
    ensures ExactProduct(a, b) == Mag64(a) * Mag64(b)
  {}

  lemma FourFactors(a: int, x: int, b: int, y: int)
    ensures (a * x) * (b * y) == (a * b) * (x * y)
  {
    MulAssoc(a, x, b * y);
    MulShuffle(x, b, y);
    MulAssoc(a, b, x * y);
  }

  lemma ScaleUp(N: nat, p: nat, t: nat, k: nat, u: nat)
    requires N * Pow2(104) == p * Pow2(t) && u + 1178 == t + k + 10
    ensures p * (Pow2(1074) * Pow2(u)) == N * 0x400 * Pow2(k)
    ensures Pow2(1074) * Pow2(u) > 0
  {
    hide *;
    Pow2Small();
    Pow2Add(1074, u);
    Pow2Add(1074 + u, 104);
    Pow2Add(t, k + 10);
    Pow2Add(k, 10);
    ThreeFactors(p, Pow2(1074 + u), Pow2(104), N, Pow2(k), Pow2(t));
    MulOrder(p * Pow2(1074 + u), N * 0x400 * Pow2(k), Pow2(104));
  }

  // From N * c == p * t and x * c == t * (k * 0x400), both sides agree once multiplied by c.
  lemma ThreeFactors(p: nat, x: nat, c: nat, N: nat, k: nat, t: nat)
    requires N * c == p * t && x * c == t * (k * 0x400)
    ensures p * x * c == N * 0x400 * k * c
  {
    MulAssoc(p, x, c);
    MulAssoc(p, t, k * 0x400);
    MulShuffle(N, 0x400 * k, c);
    MulAssoc(N, 0x400, k);
    MulShuffle(N * c, k, 0x400);
  }

  lemma ScaleDown(N: nat, p: nat, t: nat, k: nat, d: nat)
    requires N * Pow2(104) == p * Pow2(t) && 1178 == t + k + 10 + d
    ensures p * Pow2(1074) == N * 0x400 * Pow2(d) * Pow2(k)
  {
    hide *;
    Pow2Small();
    Pow2Add(1074, 104);
    Pow2Add(t, k + d + 10);
    Pow2Add(k + d, 10);
    Pow2Add(d, k);
    ThreeFactors(p, Pow2(1074), Pow2(104), N, Pow2(k + d), Pow2(t));
    MulOrder(p * Pow2(1074), N * 0x400 * Pow2(k + d), Pow2(104));
    MulAssoc(N * 0x400, Pow2(d), Pow2(k));
  }

  lemma TopOfProduct(ma: nat, mb: nat, hi: nat)
    requires IMPL <= ma < 2 * IMPL && IMPL <= mb < 2 * IMPL && hi == ma * mb / 0x1_0000_0000_0000_0000
    ensures Pow2(104) <= ma * mb < Pow2(106) && hi < 0x400_0000_0000
    ensures BitAnd(hi, 0x200_0000_0000) != 0 <==> ma * mb >= Pow2(105)
  {
    hide *;
    Masks();
    ProductPowers();
    MulMono(IMPL, ma, mb);
    MulMono2(IMPL, mb, IMPL);
    MulMono(ma, 2 * IMPL - 1, mb);
    MulMono2(mb, 2 * IMPL - 1, 2 * IMPL - 1);
    var p := ma * mb;
    DivisionBounds(p, hi);
    BitFortyOne(hi);
  }

  lemma ProductPowers()
    ensures Pow2(104) == 0x1_0000_0000_0000_0000 * 0x100_0000_0000
    ensures Pow2(105) == 0x1_0000_0000_0000_0000 * 0x200_0000_0000
    ensures Pow2(106) == 0x1_0000_0000_0000_0000 * 0x400_0000_0000
  {
    hide *;
    Pow2Tens(4);
    Pow2At64();
    Pow2Add(64, 40);
    Pow2Up(104, 1);
    Pow2Up(104, 2);
  }

  lemma DivisionBounds(p: nat, hi: nat)
    requires hi == p / 0x1_0000_0000_0000_0000
    ensures p < 0x1_0000_0000_0000_0000 * 0x400_0000_0000 <==> hi < 0x400_0000_0000
    ensures p >= 0x1_0000_0000_0000_0000 * 0x200_0000_0000 <==> hi >= 0x200_0000_0000
  {}

  lemma BitFortyOne(hi: nat)
    requires hi < 0x400_0000_0000
    ensures BitAnd(hi, 0x200_0000_0000) != 0 <==> hi >= 0x200_0000_0000
  {
    hide *;
    Pow2Tens(4);
    Pow2Up(40, 1);
    var h, l := hi / 0x200_0000_0000, hi % 0x200_0000_0000;
    HiLoUnique(hi, 41, h, l);
    SingleBit(hi, 41);
  }

  lemma ZeroRounds(den: nat)
    requires den > 0
    ensures Rounds64(0, den, 0)
  {
    ZeroRoundsIn(52, 0x7ff, den);
  }

  lemma ZeroRoundsIn(f: nat, emax: nat, den: nat)
    requires den > 0 && emax >= 3
    ensures RoundsTo(f, emax, 0, den, 0)
  {
    HiLoUnique(0, f, 0, 0);
    assert Mag(f, 0) == 0;
    forall v: nat | v != 0
      ensures Dist(f, 0, den, v) > 0
    {
      MagIncreasing(f, 0, v);
      MulOrder(0, Mag(f, v), den);
    }
    LargestBelowOverflow(f, emax);
    MulOrder(0, OverflowAt(f, emax), den);
  }

  lemma ZeroProduct(a: u64, b: u64, r: u64)
    requires IsFinite(a) && IsFinite(b) && (Abs(a) == 0 || Abs(b) == 0)
    requires Abs(r) == 0 && (r >= SIGN <==> SignOf(a) != SignOf(b))
    ensures IsProduct(a, b, r)
  {
    SubnormalMagnitude(0);
    ZeroRounds(Pow2(1074));
    ZeroFactor(a, b);
  }

  lemma ZeroFactor(a: u64, b: u64)
    requires Mag64(a) == 0 || Mag64(b) == 0
    ensures ExactProduct(a, b) == 0
  {}

  lemma SpecialProduct(a: u64, b: u64, sign: u64)
    requires !IsFinite(a) || !IsFinite(b)
    requires (sign == 0 || sign == SIGN) && (sign == SIGN <==> SignOf(a) != SignOf(b))
    ensures IsNaN(a) || IsNaN(b) ==> IsProduct(a, b, NaNResult(a, b))
    ensures !IsNaN(a) && !IsNaN(b) && (Abs(a) == 0 || Abs(b) == 0) ==> IsProduct(a, b, DNAN)
    ensures !IsNaN(a) && !IsNaN(b) && Abs(a) != 0 && Abs(b) != 0 ==> IsProduct(a, b, sign + INF)
  {
    SignedWord(sign, INF);
  }

  lemma FiniteProduct(a: u64, b: u64, r: u64)
    requires IsFinite(a) && IsFinite(b)
    requires Rounds64(ExactProduct(a, b), Pow2(1074), Abs(r)) && (r >= SIGN <==> SignOf(a) != SignOf(b))
    ensures IsProduct(a, b, r)
  {}

  lemma FiniteByFields(w: u64, e: nat, m: nat)
    requires Abs(w) == e * IMPL + m && m < IMPL
    ensures e < 0x7ff <==> IsFinite(w)
    ensures e == 0 && m == 0 <==> Abs(w) == 0
    ensures e == 0 ==> Abs(w) == m
  {}

  method Mul(a: u64, b: u64) returns (r: u64)
    ensures IsProduct(a, b, r)
  {
    hide *;
    Masks();
    SignXor(a, b);
    var sign := BitAnd(BitXor(a, b), SIGN);
    SignedWord(sign, 0);
    SignedWord(sign, INF);
    SignAndAbs(a);
    SignAndAbs(b);
    Fields(a);
    Fields(b);
    ClassByFields(a);
    ClassByFields(b);
    var ea, eb := BitAnd(Shr(a, 52), 0x7ff), BitAnd(Shr(b, 52), 0x7ff);
    var ma, mb := BitAnd(a, FRAC), BitAnd(b, FRAC);
    FiniteByFields(a, ea, ma);
    FiniteByFields(b, eb, mb);
    if ea == 0x7ff || eb == 0x7ff {
      var an, bn := ea == 0x7ff && ma != 0, eb == 0x7ff && mb != 0;
      SpecialProduct(a, b, sign);
      if an || bn {
        PropNaNRule(a, b);
        return PropNaN(a, b, an, bn);
      }
      if (ea == 0 && ma == 0) || (eb == 0 && mb == 0) {
        return DNAN; // inf * 0
      }
      return BitOr(sign, INF);
    }
    if (ea == 0 && ma == 0) || (eb == 0 && mb == 0) {
      ZeroProduct(a, b, sign);
      return sign;
    }
    ea, ma := Normalise(a, ea, ma);
    eb, mb := Normalise(b, eb, mb);
    r := MulNormalised(a, b, sign, ea, ma, eb, mb);
    SignAndAbs(r);
    FiniteProduct(a, b, r);
  }

  /** The block that multiplication and division repeat for each finite nonzero operand: the
      implicit bit of a normal one, and a shift to the same place for a subnormal one. */
  method Normalise(ghost w: u64, e0: u64, m0: u64) returns (e: int, m: u64)
    requires e0 < 0x7ff && m0 < IMPL && Abs(w) == e0 * IMPL + m0 && Abs(w) > 0
    ensures Normalised(w, e, m) && Mag64(w) > 0
  {
    hide *;
    Masks();
    e, m := e0, m0;
    if e == 0 {
      var lz := Clz64(m) - 11;
      SubnormalOperand(w, lz);
      m := Shl64(m, lz);
      e := 1 - lz;
    } else {
      OrImplicit(m);
      NormalOperand(w, e, m);
      m := BitOr(IMPL, m);
    }
  }

  /** The product of two normalised operands: 106 bits, jammed to 63. */
  method MulNormalised(ghost a: u64, ghost b: u64, sign: u64, ea: int, ma: u64, eb: int, mb: u64) returns (r: u64)
    requires (sign == 0 || sign == SIGN) && Normalised(a, ea, ma) && Normalised(b, eb, mb)
    ensures SignOf(r) == sign && Rounds64(ExactProduct(a, b), Pow2(1074), Abs(r))
  {
    hide *;
    Masks();
    NormalisedElim(a, ea, ma);
    NormalisedElim(b, eb, mb);
    ghost var p := ma * mb;
    var lo, hi := Mul64(ma, mb), Mulhiu(ma, mb);
    MulWords(ma, mb);
    TopOfProduct(ma, mb, hi);
    ProductWords(p, hi, lo, 42);
    ProductWords(p, hi, lo, 43);
    LowMasks();
    var top := BitAnd(hi, 0x200_0000_0000) != 0;
    var m1, m0 := BitOr(Shl64(hi, 21), Shr(lo, 43)), BitOr(Shl64(hi, 22), Shr(lo, 42));
    var st := if top then BitAnd(lo, 0x7ff_ffff_ffff) else BitAnd(lo, 0x3ff_ffff_ffff);
    var m := BitOr(if top then m1 else m0, if st != 0 then 1 else 0);
    ghost var k := if top then 43 else 42;
    OrSticky(Hi(p, k), Lo(p, k));
    JammedProduct(p, k, m);
    ProductScale(a, ea, ma, b, eb, mb, p, k, m);
    r := RoundPack(sign, ea + eb - 1023 + (if top then 1 else 0), m, ExactProduct(a, b), Pow2(1074));
  }

  lemma MulWords(x: u64, y: u64)
    ensures 0 <= x * y
    ensures Mulhiu(x, y) == x * y / 0x1_0000_0000_0000_0000
    ensures x * y == Mulhiu(x, y) * 0x1_0000_0000_0000_0000 + Mul64(x, y)
  {
    hide Mulhiu;
    MulMono(0, x, y);
  }

  lemma LowMasks()
    ensures Pow2(42) - 1 == 0x3ff_ffff_ffff && Pow2(43) - 1 == 0x7ff_ffff_ffff
  {
    hide *;
    Pow2Tens(4);
    Pow2Up(40, 2);
    Pow2Up(40, 3);
  }

  lemma OrSticky(q: nat, lost: nat)
    ensures BitOr(q, if lost != 0 then 1 else 0) == Jam(q, lost != 0)
  {
    OrOne(q);
    SmallBits(q);
  }
}
