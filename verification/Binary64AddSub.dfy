// Addition and subtraction: every finite sum is rounded once, from its exact value.

module Binary64AddSub {
  import opened Bits
  import opened Ieee754
  import opened Binary64Word
  import opened Binary64Round

  function Negated(w: u64): u64 { if w < SIGN then w + SIGN else w - SIGN }

  /** Sections 5.4.1 and 6.3: the exact sum of two finite data, rounded once; an exact zero sum is
      +0 unless both operands are negative zeros. */
  ghost predicate IsRoundedSum(a: u64, b: u64, r: u64) {
    var v := Value(a) + Value(b);
    if v == 0 then Abs(r) == 0 && (r >= SIGN <==> a >= SIGN && b >= SIGN)
    else (r >= SIGN <==> v < 0) && Rounds64(Magnitude(v), 1, Abs(r))
  }

  /** a + b, or a - b0 with b = -b0, for all operands: NaNs by section 6.2, infinities by 6.1, the
      difference of infinities invalid by 7.2. */
  ghost predicate IsSum(a: u64, b0: u64, neg: bool, r: u64) {
    var b := if neg then Negated(b0) else b0;
    if IsNaN(a) || IsNaN(b0) then r == NaNResult(a, b0)
    else if IsInf(a) && IsInf(b) then r == if a == b then a else DNAN
    else if IsInf(a) then r == a
    else if IsInf(b) then r == b
    else IsRoundedSum(a, b, r)
  }

  // ---------------------------------------------------------------------------------------------
  // An operand as significand and exponent.

  lemma Operand(w: u64, e0: nat, m0: nat)
    requires IsFinite(w) && m0 < IMPL && Abs(w) == e0 * IMPL + m0
    ensures var e := if e0 != 0 then e0 else 1;
            var q := if e0 != 0 then IMPL + m0 else m0;
            && 1 <= e < 0x7ff && q < 2 * IMPL && (e >= 2 ==> q >= IMPL)
            && Mag64(w) == q * Pow2(e - 1)
  {
    Pow2At52();
    Pow2Up(52, 1);
    if e0 == 0 {
      MagAt(52, 1, m0);
    } else {
      MagAt(52, e0, IMPL + m0);
      PackedImplicit(e0, m0);
    }
  }

  lemma PackedImplicit(e0: nat, m0: nat)
    requires e0 >= 1
    ensures (e0 - 1) * IMPL + (IMPL + m0) == e0 * IMPL + m0
  {}

  // Ten guard bits fit below the sign bit.
  lemma GuardShift(q: nat)
    requires q < 2 * IMPL
    ensures q < 0x1_0000_0000_0000_0000 && Shl64(q, 10) == q * 0x400 < SIGN
  {
    Pow2Small();
  }

  // ---------------------------------------------------------------------------------------------
  // Aligning the smaller operand.

  // Nothing is lost while the distance is within the guard bits, and beyond them the operand has
  // become small against the larger one.
  lemma Align(q: nat, ey: nat, ex: nat)
    requires 1 <= ey <= ex && q < 2 * IMPL
    ensures q * 0x400 < SIGN && ShrJam(q * 0x400, ex - ey) < SIGN
    ensures Agree(q * Pow2(ey - 1) * 0x400, Pow2(ex - 1), ShrJam(q * 0x400, ex - ey), 2)
    ensures ex - ey <= 10 ==> q * Pow2(ey - 1) * 0x400 == ShrJam(q * 0x400, ex - ey) * Pow2(ex - 1)
    ensures ex - ey >= 11 ==> ShrJam(q * 0x400, ex - ey) <= IMPL
  {
    hide *;
    Masks();
    var d, u := ex - ey, Pow2(ey - 1);
    var j := ShrJam(q * 0x400, d);
    Pow2Add(ey - 1, d);
    MulShuffle(q, u, 0x400);
    MulShuffle(q, 0x400, u);
    AgreeExact(u, q * 0x400, 4);
    if d <= 10 {
      AlignExact(q, d);
      MulAssoc(j, Pow2(d), u);
      MulShuffle(j, u, Pow2(d));
      AgreeExact(Pow2(ex - 1), j, 2);
    } else {
      AgreeShrJam(q * 0x400 * u, u, q * 0x400, d);
      AlignSmall(q, d);
    }
  }

  lemma AlignExact(q: nat, d: nat)
    requires q < 2 * IMPL && d <= 10
    ensures q * 0x400 < SIGN && ShrJam(q * 0x400, d) <= q * 0x400
    ensures ShrJam(q * 0x400, d) * Pow2(d) == q * 0x400
  {
    hide *;
    Masks();
    Pow2Small();
    var t := q * Pow2(10 - d);
    Pow2Add(10 - d, d);
    MulAssoc(q, Pow2(10 - d), Pow2(d));
    MulMono2(1, Pow2(d), t);
    HiLoUnique(q * 0x400, d, t, 0);
    ShrJamExact(q * 0x400, d);
    JamExactly(t);
  }

  lemma JamExactly(q: nat)
    ensures Jam(q, false) == q
  {}

  lemma AlignSmall(q: nat, d: nat)
    requires q < 2 * IMPL && d >= 11
    ensures q * 0x400 < SIGN && ShrJam(q * 0x400, d) <= IMPL
  {
    hide *;
    Masks();
    Pow2Small();
    Pow2Monotone(11, d);
    ShrJamExact(q * 0x400, d);
    HiLo(q * 0x400, d);
    MulMono2(0x800, Pow2(d), Hi(q * 0x400, d));
    JamAtMost(Hi(q * 0x400, d), Lo(q * 0x400, d) != 0);
  }

  lemma JamAtMost(q: nat, lost: bool)
    ensures Jam(q, lost) <= q + 1
  {}

  // ---------------------------------------------------------------------------------------------
  // Adding a jammed significand to an exact even one keeps the sticky bit right.

  lemma AddAgrees(den: nat, A: nat, num: nat, m: nat)
    requires den > 0 && A % 2 == 0 && Agree(num, den, m, 2)
    ensures Agree(A * den + num, den, A + m, 2)
  {
    var B, h := A / 2, m / 2;
    MulShuffle(B, 2, den);
    MulDist(B, h, den * 2);
    MulDist(B, h + 1, den * 2);
  }

  lemma SubAgrees(den: nat, A: nat, num: nat, m: nat)
    requires den > 0 && A % 2 == 0 && Agree(num, den, m, 2) && num <= A * den
    ensures m <= A && Agree(A * den - num, den, A - m, 2)
  {
    var B, h, t := A / 2, m / 2, den * 2;
    MulShuffle(B, 2, den);
    assert h <= B by {
      if B < h { MulOrder(B, h, t); }
    }
    if h == B {
      assert m % 2 == 0;
    }
    MulDist(B - h, h, t);
    MulDist(B - h - 1, h + 1, t);
  }

  // ---------------------------------------------------------------------------------------------
  // Normalising the sum so that its leading bit is at 62.

  /** What the aligned sum s stands for: num smallest subnormals, s carrying ten guard bits in the
      binade ex. Cancellation beyond one bit only happens when nothing was lost in aligning. */
  ghost predicate AlignedSum(num: nat, ex: nat, s: nat) {
    && 1 <= ex < 0x7ff && s < 0x1_0000_0000_0000_0000
    && Agree(num * 0x400, Pow2(ex - 1), s, 2)
    && (num * 0x400 == s * Pow2(ex - 1) || (ex >= 2 && s >= 0x2000_0000_0000_0000))
  }

  lemma NormaliseCarry(num: nat, ex: nat, s: nat)
    requires AlignedSum(num, ex, s) && s >= SIGN
    ensures BitOr(Shr(s, 1), BitAnd(s, 1)) < SIGN
    ensures Represents(num, 1, ex + 1, BitOr(Shr(s, 1), BitAnd(s, 1)))
  {
    AlignedSumElim(num, ex, s);
    hide *;
    Masks();
    HalveJam(s);
    AgreeCoarsen(num * 0x400, Pow2(ex - 1), s, 2, 2);
    AgreeShrJam(num * 0x400, Pow2(ex - 1), s, 1);
    Pow2Small();
    Pow2Up(ex - 1, 1);
    AgreeCoarsen(num * 0x400, Pow2(ex), ShrJam(s, 1), 2, 2);
    RepresentsIntro(num, ex + 1, ShrJam(s, 1));
  }

  lemma AlignedSumElim(num: nat, ex: nat, s: nat)
    requires AlignedSum(num, ex, s)
    ensures 1 <= ex < 0x7ff && s < 0x1_0000_0000_0000_0000 && Agree(num * 0x400, Pow2(ex - 1), s, 2)
    ensures num * 0x400 == s * Pow2(ex - 1) || (ex >= 2 && s >= 0x2000_0000_0000_0000)
  {}

  lemma RepresentsIntro(num: nat, e: int, m: nat)
    requires e >= 1 && 0x4000_0000_0000_0000 <= m < SIGN && Agree(num * 0x400, Pow2(e - 1), m, 4)
    ensures Represents(num, 1, e, m)
  {}

  // (s >> 1) | (s & 1) is the jammed shift by one.
  lemma HalveJam(s: u64)
    ensures BitOr(Shr(s, 1), BitAnd(s, 1)) == ShrJam(s, 1)
    ensures s / 2 <= ShrJam(s, 1) <= s / 2 + 1 && (s / 2 % 2 == 1 ==> ShrJam(s, 1) == s / 2)
  {
    Pow2Small();
    ShrIsHi(s, 1);
    HiLo(s, 1);
    ShrJamExact(s, 1);
    SmallBits(s);
    SmallBits(Hi(s, 1));
    OrOne(Hi(s, 1));
  }

  lemma LeadingZeros(s: u64, lz: int)
    requires 0 < s < SIGN && lz == Clz64(s) - 1
    ensures 0 <= lz <= 62
    ensures 0x4000_0000_0000_0000 <= s * Pow2(lz) < SIGN && Shl64(s, lz) == s * Pow2(lz)
    ensures s >= 0x4000_0000_0000_0000 ==> lz == 0
    ensures s >= 0x2000_0000_0000_0000 ==> lz <= 1
  {
    LeadingZerosAt(s, BitLength(s));
  }

  lemma LeadingZerosAt(s: u64, n: nat)
    requires 0 < s < SIGN && n == BitLength(s)
    ensures 1 <= n <= 63 && 0x4000_0000_0000_0000 <= s * Pow2(63 - n) < SIGN
    ensures s >= 0x4000_0000_0000_0000 ==> n == 63
    ensures s >= 0x2000_0000_0000_0000 ==> n >= 62
  {
    hide *;
    Masks();
    Pow2At62();
    Pow2At63();
    Pow2Up(61, 1);
    BitLengthBounds(s);
    BitLengthAtMost(s, 63);
    if s >= 0x4000_0000_0000_0000 { BitLengthAtLeast(s, 62); }
    if s >= 0x2000_0000_0000_0000 { BitLengthAtLeast(s, 61); }
    var lz := 63 - n;
    Pow2Add(n - 1, lz);
    Pow2Add(n, lz);
    MulMono(Pow2(n - 1), s, Pow2(lz));
    ScaledLess(s, Pow2(n), Pow2(lz));
  }

  lemma NormaliseLeft(num: nat, ex: nat, s: nat, lz: int)
    requires AlignedSum(num, ex, s) && 0 < s < SIGN && lz == Clz64(s) - 1
    ensures 0 <= lz < 64 && Represents(num, 1, ex - lz, Shl64(s, lz))
  {
    AlignedSumElim(num, ex, s);
    hide *;
    LeadingZeros(s, lz);
    if lz == 0 {
      NormalisedAlready(num, ex, s);
    } else if num * 0x400 == s * Pow2(ex - 1) {
      NormaliseExact(num, ex, s, lz);
    } else {
      NormaliseByOne(num, ex, s);
    }
  }

  lemma NormalisedAlready(num: nat, ex: nat, s: nat)
    requires AlignedSum(num, ex, s) && 0x4000_0000_0000_0000 <= s < SIGN
    ensures Represents(num, 1, ex, s * Pow2(0))
  {
    AlignedSumElim(num, ex, s);
    hide *;
    Masks();
    Pow2Small();
    AgreeCoarsen(num * 0x400, Pow2(ex - 1), s, 2, 2);
    RepresentsIntro(num, ex, s);
  }

  lemma NormaliseExact(num: nat, ex: nat, s: nat, lz: nat)
    requires ex >= 1 && num * 0x400 == s * Pow2(ex - 1)
    requires 0x4000_0000_0000_0000 <= s * Pow2(lz) < SIGN
    ensures Represents(num, 1, ex - lz, s * Pow2(lz))
  {
    var e, t := ex - lz, s * Pow2(lz);
    if e >= 1 {
      Pow2Add(e - 1, lz);
      MulShuffle(s, Pow2(lz), Pow2(e - 1));
      MulShuffle(s, Pow2(e - 1), Pow2(lz));
      AgreeExact(Pow2(e - 1), t, 4);
    } else {
      Pow2Add(ex - 1, 1 - e);
      MulAssoc(s, Pow2(ex - 1), Pow2(1 - e));
      AgreeExact(1, t, 4);
    }
  }

  // One bit of cancellation doubles a sticky significand; the guard bits still decide the rounding.
  lemma NormaliseByOne(num: nat, ex: nat, s: nat)
    requires ex >= 2 && Agree(num * 0x400, Pow2(ex - 1), s, 2)
    requires 0x2000_0000_0000_0000 <= s < 0x4000_0000_0000_0000
    ensures Represents(num, 1, ex - 1, s * Pow2(1))
  {
    Pow2Small();
    var u := Pow2(ex - 2);
    AgreeDouble(num * 0x400, 2 * u, s);
    MulShuffle(2 * (num * 0x400), u, 1);
    MulShuffle(num * 0x400, 2, u);
    AgreeScale(2 * (num * 0x400), 2 * u, num * 0x400, u, s * 2, 4);
  }

  lemma RepresentsZero()
    ensures Represents(0, 1, -1, 0)
  {}

  lemma RoundedZero(w: nat)
    requires Rounds64(0, 1, w)
    ensures w == 0
  {
    hide *;
    ZeroRoundsToItself();
    UniqueRounding(0, 1, w, 0);
  }

  lemma ZeroRoundsToItself()
    ensures Rounds64(0, 1, 0)
  {
    Pow2At52();
    HiLoUnique(0, 52, 0, 0);
    RoundsToSelf(52, 0x7ff, 0);
  }

  lemma UniqueRounding(num: nat, den: nat, v: nat, w: nat)
    requires den > 0 && Rounds64(num, den, v) && Rounds64(num, den, w)
    ensures v == w
  {
    RoundsToUnique(52, 0x7ff, num, den, v, w);
  }

  lemma AgreeZero(num: nat, den: nat, s: nat)
    requires den > 0 && Agree(num, den, s, 2)
    ensures s == 0 <==> num == 0
  {
    MulOrder(0, s / 2, den * 2);
  }

  // ---------------------------------------------------------------------------------------------
  // The whole operation.

  lemma NegatedByXor(w: u64)
    ensures BitXor(w, SIGN) == Negated(w) && Abs(Negated(w)) == Abs(w)
  {
    SignMasks(w);
    SignAndAbs(w);
  }

  function Larger(a: u64, b: u64): u64 { if Abs(a) < Abs(b) then b else a }

  function Smaller(a: u64, b: u64): u64 { if Abs(a) < Abs(b) then a else b }

  lemma SpecialSum(a: u64, b0: u64, neg: bool, b: u64)
    requires b == (if neg then Negated(b0) else b0) && !IsFinite(Larger(a, b))
    ensures IsNaN(a) || IsNaN(b0) ==> IsSum(a, b0, neg, NaNResult(a, b0))
    ensures !IsNaN(a) && !IsNaN(b0) && IsInf(Smaller(a, b)) ==>
              IsSum(a, b0, neg, if SignOf(a) != SignOf(b) then DNAN else Larger(a, b))
    ensures !IsNaN(a) && !IsNaN(b0) && !IsInf(Smaller(a, b)) ==> IsSum(a, b0, neg, Larger(a, b))
  {
    NegatedByXor(b0);
    SignAndAbs(a);
    SignAndAbs(b);
  }

  lemma SumAligned(X: nat, ex: nat, qx: nat, Y: nat, ey: nat, qy: nat, sub: bool)
    requires 1 <= ey <= ex < 0x7ff && qx < 2 * IMPL && qy < 2 * IMPL && (ex >= 2 ==> qx >= IMPL)
    requires X == qx * Pow2(ex - 1) && Y == qy * Pow2(ey - 1) && (sub ==> Y <= X)
    ensures qy * 0x400 < SIGN
    ensures var j := ShrJam(qy * 0x400, ex - ey);
            && (if sub then j <= qx * 0x400 else qx * 0x400 + j < 0x1_0000_0000_0000_0000)
            && AlignedSum(if sub then X - Y else X + Y, ex, if sub then qx * 0x400 - j else qx * 0x400 + j)
  {
    hide *;
    Masks();
    var u, A := Pow2(ex - 1), qx * 0x400;
    Align(qy, ey, ex);
    var j := ShrJam(qy * 0x400, ex - ey);
    MulShuffle(qx, u, 0x400);
    MulShuffle(qx, 0x400, u);
    if sub {
      SubAgrees(u, A, Y * 0x400, j);
      MulDist(A - j, j, u);
      assert ex - ey <= 10 ==> (X - Y) * 0x400 == (A - j) * u;
      AlignedSumIntro(X - Y, ex, A - j);
    } else {
      AddAgrees(u, A, Y * 0x400, j);
      MulDist(A, j, u);
      assert ex - ey <= 10 ==> (X + Y) * 0x400 == (A + j) * u;
      AlignedSumIntro(X + Y, ex, A + j);
    }
  }

  lemma AlignedSumIntro(num: nat, ex: nat, s: int)
    requires 1 <= ex < 0x7ff && 0 <= s < 0x1_0000_0000_0000_0000
    requires Agree(num * 0x400, Pow2(ex - 1), s, 2)
    requires num * 0x400 == s * Pow2(ex - 1) || (ex >= 2 && s >= 0x2000_0000_0000_0000)
    ensures AlignedSum(num, ex, s)
  {}

  // Whatever the sum, what reaches the rounding step stands for it.
  lemma SumNormalised(num: nat, ex: nat, s: u64, lz: int)
    requires AlignedSum(num, ex, s) && lz == Clz64(s) - 1
    ensures s == 0 <==> num == 0
    ensures Shr(s, 63) != 0 ==> BitOr(Shr(s, 1), BitAnd(s, 1)) < SIGN
    ensures Shr(s, 63) == 0 ==> 0 <= lz < 64
    ensures var carry := Shr(s, 63) != 0;
            Represents(num, 1, if s == 0 then -1 else if carry then ex + 1 else ex - lz,
                       if carry then BitOr(Shr(s, 1), BitAnd(s, 1)) else Shl64(s, lz % 64))
  {
    hide *;
    Masks();
    AlignedZero(num, ex, s);
    CarryBit(s);
    if s >= SIGN {
      NormaliseCarry(num, ex, s);
    } else if s > 0 {
      NormaliseLeft(num, ex, s, lz);
    } else {
      ZeroShift();
      RepresentsZero();
    }
  }

  lemma AlignedZero(num: nat, ex: nat, s: nat)
    requires AlignedSum(num, ex, s)
    ensures s == 0 <==> num == 0
  {
    AgreeZero(num * 0x400, Pow2(ex - 1), s);
  }

  lemma ZeroShift()
    ensures Clz64(0) - 1 == 63 && Shl64(0, 63) == 0
  {}

  lemma CarryBit(s: u64)
    ensures Shr(s, 63) != 0 <==> s >= SIGN
  {
    TopBit(s);
    ShrIsHi(s, 63);
  }

  lemma SumIsRounded(a: u64, b: u64, r: u64)
    requires var x, y := Larger(a, b), Smaller(a, b);
             var sub := SignOf(x) != SignOf(y);
             && Mag64(y) <= Mag64(x)
             && var num := if sub then Mag64(x) - Mag64(y) else Mag64(x) + Mag64(y);
                SignOf(r) == (if num == 0 && sub then 0 else SignOf(x)) && Rounds64(num, 1, Abs(r))
    ensures IsRoundedSum(a, b, r)
  {
    var x, y := Larger(a, b), Smaller(a, b);
    var num := if SignOf(x) != SignOf(y) then Mag64(x) - Mag64(y) else Mag64(x) + Mag64(y);
    LargerMagnitude(a, b);
    SumSign(a, b);
    SignAndAbs(r);
    SignAndAbs(a);
    SignAndAbs(b);
    SignAndAbs(x);
    if num == 0 { RoundedZero(Abs(r)); }
    RoundedSumIntro(a, b, num, r);
  }

  lemma SumSign(a: u64, b: u64)
    ensures Value(a) + Value(b)
         == if SignOf(a) == SignOf(b) then Signed(a >= SIGN, Mag64(a) + Mag64(b))
            else Signed(Larger(a, b) >= SIGN, Mag64(Larger(a, b)) - Mag64(Smaller(a, b)))
  {
    LargerMagnitude(a, b);
    SignAndAbs(a);
    SignAndAbs(b);
    hide Mag64, Abs;
  }

  lemma RoundedSumIntro(a: u64, b: u64, num: nat, r: u64)
    requires num == Magnitude(Value(a) + Value(b)) && Rounds64(num, 1, Abs(r))
    requires num == 0 ==> Abs(r) == 0 && (r >= SIGN <==> a >= SIGN && b >= SIGN)
    requires num != 0 ==> (r >= SIGN <==> Value(a) + Value(b) < 0)
    ensures IsRoundedSum(a, b, r)
  {}

  lemma LargerIs(a: u64, b: u64)
    ensures Larger(a, b) == if Abs(a) < Abs(b) then b else a
    ensures Smaller(a, b) == if Abs(a) < Abs(b) then a else b
  {}

  lemma FiniteSum(a: u64, b0: u64, neg: bool, r: u64)
    requires var b := if neg then Negated(b0) else b0;
             IsFinite(Larger(a, b)) && IsRoundedSum(a, b, r)
    ensures IsSum(a, b0, neg, r)
  {
    NegatedByXor(b0);
  }

  lemma BothFinite(a: u64, b: u64)
    requires IsFinite(Larger(a, b))
    ensures IsFinite(Smaller(a, b))
  {}

  lemma LargerMagnitude(a: u64, b: u64)
    ensures Mag64(Smaller(a, b)) <= Mag64(Larger(a, b))
    ensures Mag64(a) + Mag64(b) == Mag64(Larger(a, b)) + Mag64(Smaller(a, b))
    ensures SignOf(Larger(a, b)) != SignOf(Smaller(a, b)) <==> SignOf(a) != SignOf(b)
    ensures Abs(Smaller(a, b)) <= Abs(Larger(a, b))
  {
    MagMonotone(52, Abs(Smaller(a, b)), Abs(Larger(a, b)));
  }

  /** The sum of two finite data, the first at least as large as the second, from their fields. */
  method AddFinite(x: u64, y: u64, ex0: u64, ey0: u64, mx0: u64, my0: u64) returns (r: u64)
    requires IsFinite(x) && IsFinite(y) && Mag64(y) <= Mag64(x) && ey0 <= ex0 < 0x7ff && mx0 < IMPL && my0 < IMPL
    requires Abs(x) == ex0 * IMPL + mx0 && Abs(y) == ey0 * IMPL + my0
    ensures var sub := SignOf(x) != SignOf(y);
            var num := if sub then Mag64(x) - Mag64(y) else Mag64(x) + Mag64(y);
            SignOf(r) == (if num == 0 && sub then 0 else SignOf(x)) && Rounds64(num, 1, Abs(r))
  {
    hide *;
    Masks();
    var ex, ey, mx, my := ex0, ey0, mx0, my0;
    Operand(x, ex, mx);
    Operand(y, ey, my);
    OrImplicit(mx);
    OrImplicit(my);
    SignMasks(x);
    SignAndAbs(x);
    SignXor(x, y);
    var sx := BitAnd(x, SIGN);
    var sub := Shr(BitXor(x, y), 63) != 0;
    ghost var num := if sub then Mag64(x) - Mag64(y) else Mag64(x) + Mag64(y);
    ghost var qx, qy := if ex != 0 then IMPL + mx else mx, if ey != 0 then IMPL + my else my;
    GuardShift(qx);
    GuardShift(qy);
    mx := Shl64(if ex != 0 then BitOr(IMPL, mx) else mx, 10);
    ex := if ex != 0 then ex else 1;
    my := Shl64(if ey != 0 then BitOr(IMPL, my) else my, 10);
    ey := if ey != 0 then ey else 1;
    SumAligned(Mag64(x), ex, qx, Mag64(y), ey, qy, sub);
    my := ShrJam(my, ex - ey);
    var s := if sub then mx - my else mx + my;
    var lz := Clz64(s) - 1; // -1 on carry, 63 on zero
    SumNormalised(num, ex, s, lz);
    var carry := Shr(s, 63) != 0;
    var sN := if carry then BitOr(Shr(s, 1), BitAnd(s, 1)) else Shl64(s, lz % 64);
    var eN := if carry then ex + 1 else ex - lz;
    var zero := s == 0;
    r := RoundPack(if zero && sub then 0 else sx, if zero then -1 else eN, sN, num, 1);
  }

  method AddSub(a: u64, b0: u64, neg: bool) returns (r: u64)
    ensures IsSum(a, b0, neg, r)
  {
    hide *;
    Masks();
    NegatedByXor(b0);
    var b := if neg then BitXor(b0, SIGN) else b0;
    SignMasks(a);
    SignMasks(b);
    var sw := BitAnd(a, SIGN - 1) < BitAnd(b, SIGN - 1);
    var x, y := if sw then b else a, if sw then a else b;
    Fields(x);
    Fields(y);
    var ex, ey := BitAnd(Shr(x, 52), 0x7ff), BitAnd(Shr(y, 52), 0x7ff);
    var mx, my := BitAnd(x, FRAC), BitAnd(y, FRAC);
    LargerIs(a, b);
    ClassByFields(x);
    if ex == 0x7ff {
      SpecialSum(a, b0, neg, b);
      ClassByFields(a);
      ClassByFields(b0);
      ClassByFields(y);
      SignXor(x, y);
      var an := BitAnd(Shr(a, 52), 0x7ff) == 0x7ff && BitAnd(a, FRAC) != 0;
      var bn := BitAnd(Shr(b0, 52), 0x7ff) == 0x7ff && BitAnd(b0, FRAC) != 0;
      if an || bn {
        PropNaNRule(a, b0);
        return PropNaN(a, b0, an, bn);
      }
      if ey == 0x7ff {
        return if BitAnd(BitXor(x, y), SIGN) != 0 then DNAN else x;
      }
      return x;
    }
    BothFinite(a, b);
    LargerMagnitude(a, b);
    ClassByFields(y);
    r := AddFinite(x, y, ex, ey, mx, my);
    SumIsRounded(a, b, r);
    FiniteSum(a, b0, neg, r);
  }
}
