// Conversions: integers and binary32 to binary64 exactly, binary64 to binary32 rounded once.

module Binary64Convert {
  import opened Bits
  import opened Ieee754
  import opened Binary64Word
  import opened Binary64Round
  import opened Binary64Mul

  const SIGN32: u32 := 0x8000_0000
  const INF32: u32 := 0x7f80_0000

  // A binary32 smallest subnormal is 2^925 binary64 ones, and an integer unit 2^1074.

  function Abs32(w: u32): u32 { w % SIGN32 }

  predicate IsNaN32(w: u32) { Abs32(w) > INF32 }

  /** The fraction of a NaN with its quiet bit set. */
  function QuietFraction(m: nat): nat { if m < 0x40_0000 then m + 0x40_0000 else m }

  function Quieted32(w: u32): u32 {
    if w % 0x80_0000 < 0x40_0000 then w + 0x40_0000 else w
  }

  ghost predicate Rounds32(num: nat, den: nat, w: nat) { RoundsTo(23, 0xff, num, den, w) }

  /** Widening: exact on every number, infinities kept, NaN payloads kept and made quiet. */
  ghost predicate IsWidened(u: u32, r: u64) {
    && (r >= SIGN <==> u >= SIGN32)
    && (if IsNaN32(u) then Abs(r) == INF + QuietFraction(Abs32(u) - INF32) * 0x2000_0000
        else if Abs32(u) == INF32 then Abs(r) == INF
        else Abs(r) < INF && Mag64(r) == Mag(23, Abs32(u)) * Pow2(925))
  }

  /** Narrowing, section 5.4.2: correctly rounded, infinities kept, the top payload bits of a NaN
      kept and made quiet. */
  ghost predicate IsNarrowed(d: u64, r: u32) {
    && (r >= SIGN32 <==> d >= SIGN)
    && (if IsNaN(d) then Abs32(r) == INF32 + QuietFraction((Abs(d) - INF) / 0x2000_0000)
        else if IsInf(d) then Abs32(r) == INF32
        else Rounds32(Mag64(d), Pow2(925), Abs32(r)))
  }

  // ---------------------------------------------------------------------------------------------
  // Integers.

  function Clz32(x: u32): (r: int)
    ensures 0 <= r <= 32
  {
    Pow2At32();
    BitLengthAtMost(x, 32);
    32 - BitLength(x)
  }

  // The fields of a word, or-ed together, and the magnitude they make.
  lemma OrFields(sign: u64, e: nat, m: nat)
    requires (sign == 0 || sign == SIGN) && e < 0x800 && m < 0x10_0000_0000_0000
    ensures Shl64(e, 52) == e * 0x10_0000_0000_0000 && sign + e * 0x10_0000_0000_0000 + m < 0x1_0000_0000_0000_0000
    ensures BitOr(sign, e * 0x10_0000_0000_0000) == sign + e * 0x10_0000_0000_0000
            && BitOr(sign + e * 0x10_0000_0000_0000, m) == sign + e * 0x10_0000_0000_0000 + m
    ensures SignOf(sign + e * 0x10_0000_0000_0000 + m) == sign
            && Abs(sign + e * 0x10_0000_0000_0000 + m) == e * 0x10_0000_0000_0000 + m
  {
    hide *;
    Masks();
    Pow2At52();
    ExponentField(e);
    SignedWord(sign, e * 0x10_0000_0000_0000);
    SignedWord(sign, e * 0x10_0000_0000_0000 + m);
    var h := e + if sign == 0 then 0 else 0x800;
    HiLoUnique(sign + e * 0x10_0000_0000_0000, 52, h, 0);
    OrDisjoint(sign + e * 0x10_0000_0000_0000, m, 52);
  }

  lemma MagOfFields(e: nat, q: nat)
    requires 1 <= e < 0x7ff && IMPL <= q < 2 * IMPL
    ensures e * IMPL + (q - IMPL) < INF && Mag(52, e * IMPL + (q - IMPL)) == q * Pow2(e - 1)
  {
    hide PackedWord, Mag;
    PackedNormal(e, q - IMPL);
    Pow2At52();
    Pow2Up(52, 1);
    MagAt(52, e, q);
  }

  lemma FractionMask(q: u64)
    requires IMPL <= q < 2 * IMPL
    ensures BitAnd(q, FRAC) == q - IMPL
  {
    hide *;
    Masks();
    Pow2At52();
    AndMask(q, 52);
    HiLoUnique(q, 52, 1, q - IMPL);
  }

  // An integer of n bits, shifted until its top bit is the implicit one.
  lemma ShiftedInteger(x: u32, n: nat)
    requires x > 0 && n == BitLength(x)
    ensures 1 <= n <= 32
    ensures IMPL <= x * Pow2(53 - n) < 2 * IMPL && Shl64(x, 53 - n) == x * Pow2(53 - n)
    ensures x * Pow2(53 - n) * Pow2(n + 1021) == x * Pow2(1074)
  {
    hide *;
    Masks();
    Pow2At32();
    Pow2At52();
    Pow2Up(52, 1);
    BitLengthBounds(x);
    BitLengthAtMost(x, 32);
    Pow2Add(n - 1, 53 - n);
    Pow2Add(n, 53 - n);
    MulMono(Pow2(n - 1), x, Pow2(53 - n));
    ScaledLess(x, Pow2(n), Pow2(53 - n));
    Shl64Exact(x, 53 - n);
    Pow2Add(53 - n, n + 1021);
    MulAssoc(x, Pow2(53 - n), Pow2(n + 1021));
  }

  /** An unsigned 32-bit integer always fits the significand. */
  function FromU32(x: u32): (r: u64)
    ensures r < INF && Mag64(r) == x * Pow2(1074)
  {
    IntegerFields(x);
    if x == 0 then 0
    else
      var lz := Clz32(x);
      BitOr(Shl64(31 - lz + 1023, 52), BitAnd(Shl64(x, 21 + lz), FRAC))
  }

  lemma IntegerFields(x: u32)
    ensures x == 0 ==> Mag(52, 0) == 0
    ensures x > 0 ==>
      && 21 + Clz32(x) < 64
      && var r := BitOr(Shl64(31 - Clz32(x) + 1023, 52), BitAnd(Shl64(x, 21 + Clz32(x)), FRAC));
         r < INF && Abs(r) == r && Mag(52, r) == x * Pow2(1074)
  {
    if x == 0 {
      SubnormalMagnitude(0);
    } else {
      var n := BitLength(x);
      IntegerFieldsOf(x, n);
    }
  }

  lemma IntegerFieldsOf(x: u32, n: nat)
    requires x > 0 && n == BitLength(x)
    ensures 1 <= n <= 32
    ensures var r := BitOr(Shl64(n + 1022, 52), BitAnd(Shl64(x, 53 - n), FRAC));
            r < INF && Abs(r) == r && Mag(52, r) == x * Pow2(1074)
  {
    hide *;
    Masks();
    ShiftedInteger(x, n);
    var q := Shl64(x, 53 - n);
    FractionMask(q);
    OrFields(0, n + 1022, q - IMPL);
    SmallBits((n + 1022) * IMPL);
    MagOfFields(n + 1022, q);
  }

  type i32 = x: int | -0x8000_0000 <= x < 0x8000_0000

  function FromI32(x: i32): u64 {
    var r := FromU32(Magnitude(x));
    SignSet(r);
    BitOr(r, if x < 0 then SIGN else 0)
  }

  lemma SignSet(r: u64)
    requires r < INF
    ensures BitOr(r, SIGN) == SIGN + r && BitOr(r, 0) == r && Abs(r) == r && Abs(SIGN + r) == r
  {
    hide *;
    Masks();
    SignedWord(SIGN, r);
    SignedWord(0, r);
    SmallBits(r);
    OrSwap(r, SIGN);
  }

  lemma OrSwap(a: nat, b: nat)
    ensures BitOr(a, b) == BitOr(b, a)
  {}

  /** A signed 32-bit integer converts to the datum of exactly that value. */
  lemma FromI32Exact(x: i32)
    ensures IsFinite(FromI32(x)) && Value(FromI32(x)) == x * Pow2(1074)
  {
    hide FromU32, Pow2, Mag64;
    var r := FromU32(Magnitude(x));
    SignSet(r);
    SameMagnitude(FromI32(x), r);
    MinusTimes(Magnitude(x), Pow2(1074));
  }

  lemma SameMagnitude(x: u64, y: u64)
    requires Abs(x) == Abs(y)
    ensures Mag64(x) == Mag64(y)
  {}

  lemma MinusTimes(a: int, b: int)
    ensures -(a * b) == -a * b
  {}

  // ---------------------------------------------------------------------------------------------
  // Binary32 fields.

  lemma Fields32(u: u32)
    ensures BitAnd(Shr(u, 23), 0xff) == Abs32(u) / 0x80_0000 <= 0xff
    ensures BitAnd(u, 0x7f_ffff) == Abs32(u) % 0x80_0000 == u % 0x80_0000
    ensures Abs32(u) == BitAnd(Shr(u, 23), 0xff) * 0x80_0000 + BitAnd(u, 0x7f_ffff)
  {
    Constants32();
    hide *;
    Pow2At23();
    Pow2Up(5, 3);
    Pow2Up(0, 5);
    Pow2Small();
    ShrIsHi(u, 23);
    HiLo(u, 23);
    AndMask(u, 23);
    var h := Hi(u, 23);
    AndMask(h, 8);
    HiLo(h, 8);
    Abs32Is(u);
    FieldSplit32(u, Hi(h, 8), Lo(h, 8), Lo(u, 23));
  }

  lemma Abs32Is(u: u32)
    ensures Abs32(u) == u % 0x8000_0000
  {}

  lemma Constants32()
    ensures SIGN32 == 0x8000_0000 && INF32 == 0x7f80_0000
  {}

  lemma FieldSplit32(w: u32, t: nat, x: nat, l: nat)
    requires w == (t * 0x100 + x) * 0x80_0000 + l && x < 0x100 && l < 0x80_0000
    ensures w % 0x8000_0000 == x * 0x80_0000 + l
    ensures w % 0x8000_0000 / 0x80_0000 == x
    ensures w % 0x8000_0000 % 0x80_0000 == l == w % 0x80_0000
  {}

  // The sign bit, moved between the two widths.
  lemma SignUp(u: u32)
    ensures BitAnd(u, SIGN32) < 0x1_0000_0000
    ensures Shl64(BitAnd(u, SIGN32), 32) == if u >= SIGN32 then SIGN else 0
  {
    hide *;
    Constants32();
    Masks();
    Pow2Up(30, 1);
    Pow2Tens(3);
    Pow2At32();
    SingleBit(u, 31);
    HiLo(u, 31);
    TopQuotient(u, Hi(u, 31), Lo(u, 31), 0x8000_0000);
    Shl64Of(BitAnd(u, SIGN32), 32);
  }

  lemma Shl64Of(x: u64, s: nat)
    requires s < 64
    ensures Shl64(x, s) == x * Pow2(s) % 0x1_0000_0000_0000_0000
  {}

  lemma TopQuotient(u: nat, h: nat, l: nat, p: nat)
    requires p > 0 && u == h * p + l && l < p && u < 2 * p
    ensures h == if u >= p then 1 else 0
  {
    if h >= 2 { MulMono(2, h, p); }
    if h <= 0 { MulMono(h, 0, p); }
  }

  lemma SignDown(d: u64)
    ensures Shr(d, 32) < 0x1_0000_0000
    ensures BitAnd(Shr(d, 32), SIGN32) == if d >= SIGN then SIGN32 else 0
  {
    hide *;
    Constants32();
    Masks();
    Pow2Up(30, 1);
    Pow2Tens(3);
    Pow2At32();
    ShrIsHi(d, 32);
    HiLoDivMod(d, 32);
    var x := Shr(d, 32);
    SingleBit(x, 31);
    HiLo(x, 31);
    TopQuotient(x, Hi(x, 31), Lo(x, 31), 0x8000_0000);
  }

  // ---------------------------------------------------------------------------------------------
  // Binary32 to binary64.

  function Shl32(x: u32, s: nat): u32
    requires s < 32
  {
    x * Pow2(s) % TWO32
  }

  lemma Shl32Exact(x: u32, s: nat)
    requires s < 32 && x * Pow2(s) < 0x1_0000_0000
    ensures Shl32(x, s) == x * Pow2(s)
  {}

  lemma Fraction32(m: u32)
    requires m < 0x100_0000
    ensures BitAnd(m, 0x7f_ffff) == if m < 0x80_0000 then m else m - 0x80_0000
    ensures Shl64(BitAnd(m, 0x7f_ffff), 29) == BitAnd(m, 0x7f_ffff) * 0x2000_0000
  {
    hide *;
    Pow2At23();
    Pow2At29();
    AndMask(m, 23);
    HiLoUnique(m, 23, if m < 0x80_0000 then 0 else 1, if m < 0x80_0000 then m else m - 0x80_0000);
    Shl64Of(BitAnd(m, 0x7f_ffff), 29);
  }

  /** A binary32 significand: 2^23 <= m < 2^24, worth m * 2^(e-1) smallest binary64 subnormals of
      2^896 binades below; e is at least -22. */
  ghost predicate Normalised32(u: u32, e: int, m: nat) {
    -22 <= e < 0xff && 0x80_0000 <= m < 0x100_0000 && m * 0x2000_0000 * Pow2(e + 895) == Mag(23, Abs32(u)) * Pow2(925)
  }

  lemma Normal32(u: u32, e: nat, m: nat)
    requires 1 <= e < 0xff && m < 0x80_0000 && Abs32(u) == e * 0x80_0000 + m
    ensures Normalised32(u, e, 0x80_0000 + m)
  {
    hide PackedWord, Mag;
    Pow2At23();
    Pow2Up(23, 1);
    MagAt(23, e, 0x80_0000 + m);
    Packed23(e, 0x80_0000 + m);
    Pow2At29();
    Pow2Add(29, e + 895);
    Pow2Add(e - 1, 925);
    MulAssoc(0x80_0000 + m, Pow2(29), Pow2(e + 895));
    MulAssoc(0x80_0000 + m, Pow2(e - 1), Pow2(925));
  }

  lemma Packed23(e: nat, q: nat)
    requires e >= 1
    ensures PackedWord(23, e, q) == (e - 1) * 0x80_0000 + q
  {
    Pow2At23();
  }

  lemma Subnormal32(u: u32, n: nat)
    requires 0 < Abs32(u) < 0x80_0000 && n == BitLength(Abs32(u))
    ensures 1 <= n <= 23 && Shl32(Abs32(u), 24 - n) == Abs32(u) * Pow2(24 - n)
    ensures 0x80_0000 <= Abs32(u) * Pow2(24 - n) && Normalised32(u, n - 23, Abs32(u) * Pow2(24 - n))
  {
    var m := Abs32(u);
    SubnormalMag32(m);
    SubnormalShift32(m, n);
    Shl32Exact(m, 24 - n);
  }

  lemma SubnormalMag32(m: nat)
    requires m < 0x80_0000
    ensures Mag(23, m) == m
  {
    Pow2At23();
    HiLoUnique(m, 23, 0, m);
  }

  lemma SubnormalShift32(m: nat, n: nat)
    requires 0 < m < 0x80_0000 && n == BitLength(m)
    ensures 1 <= n <= 23 && 0x80_0000 <= m * Pow2(24 - n) < 0x100_0000
    ensures m * Pow2(24 - n) * 0x2000_0000 * Pow2(n + 872) == m * Pow2(925)
  {
    hide *;
    Pow2At23();
    Pow2At29();
    Pow2Up(23, 1);
    BitLengthBounds(m);
    BitLengthAtMost(m, 23);
    Pow2Add(n - 1, 24 - n);
    Pow2Add(n, 24 - n);
    MulMono(Pow2(n - 1), m, Pow2(24 - n));
    ScaledLess(m, Pow2(n), Pow2(24 - n));
    Pow2Add(24 - n, 29);
    Pow2Add(53 - n, n + 872);
    MulAssoc(m, Pow2(24 - n), Pow2(29));
    MulAssoc(m, Pow2(53 - n), Pow2(n + 872));
  }

  lemma WidenFinite(u: u32, E: nat, low: nat, sign: u64)
    requires Normalised32(u, E - 896, low + 0x80_0000) && Abs32(u) < INF32
    requires (sign == 0 || sign == SIGN) && (sign == SIGN <==> u >= SIGN32)
    ensures 0 <= E * 0x10_0000_0000_0000 + low * 0x2000_0000 < INF
    ensures IsWidened(u, sign + (E * 0x10_0000_0000_0000 + low * 0x2000_0000))
  {
    hide Mag, Pow2;
    MagOfFields(E, (low + 0x80_0000) * 0x2000_0000);
    SignedWord(sign, E * 0x10_0000_0000_0000 + low * 0x2000_0000);
  }

  // The word of a number, from the last line of the conversion; f is the significand with or
  // without its implicit bit.
  lemma WidenedBits(E: nat, low: nat, f: u32, sign: u64)
    requires (sign == 0 || sign == SIGN) && E < 0x7ff && low < 0x80_0000 && (f == low || f == low + 0x80_0000)
    ensures BitAnd(f, 0x7f_ffff) == low && BitOr(sign, Shl64(E, 52)) < 0x1_0000_0000_0000_0000
    ensures BitOr(BitOr(sign, Shl64(E, 52)), Shl64(low, 29))
         == sign + (E * 0x10_0000_0000_0000 + low * 0x2000_0000) < 0x1_0000_0000_0000_0000
  {
    hide *;
    Masks();
    Fraction32(f);
    OrFields(sign, E, low * 0x2000_0000);
  }

  lemma WidenedNumber(u: u32, E: nat, low: nat, f: u32, sign: u64)
    requires Normalised32(u, E - 896, low + 0x80_0000) && Abs32(u) < INF32 && (f == low || f == low + 0x80_0000)
    requires (sign == 0 || sign == SIGN) && (sign == SIGN <==> u >= SIGN32)
    ensures BitAnd(f, 0x7f_ffff) == low < 0x80_0000
    ensures BitOr(sign, Shl64(E, 52)) < 0x1_0000_0000_0000_0000
    ensures BitOr(BitOr(sign, Shl64(E, 52)), Shl64(low, 29)) < 0x1_0000_0000_0000_0000
    ensures IsWidened(u, BitOr(BitOr(sign, Shl64(E, 52)), Shl64(low, 29)))
  {
    Normalised32Elim(u, E - 896, low + 0x80_0000);
    hide *;
    WidenFinite(u, E, low, sign);
    WidenedBits(E, low, f, sign);
  }

  lemma Normalised32Elim(u: u32, e: int, m: nat)
    requires Normalised32(u, e, m)
    ensures -22 <= e < 0xff && 0x80_0000 <= m < 0x100_0000
  {}

  lemma WidenInf(u: u32, sign: u64)
    requires Abs32(u) == INF32
    requires (sign == 0 || sign == SIGN) && (sign == SIGN <==> u >= SIGN32)
    ensures IsWidened(u, sign + INF)
  {
    SignedWord(sign, INF);
  }

  lemma WidenNaN(u: u32, m: nat, sign: u64)
    requires Abs32(u) == INF32 + m && 0 < m < 0x80_0000
    requires (sign == 0 || sign == SIGN) && (sign == SIGN <==> u >= SIGN32)
    ensures IsWidened(u, sign + (INF + QuietFraction(m) * 0x2000_0000))
  {
    SignedWord(sign, INF + QuietFraction(m) * 0x2000_0000);
  }

  lemma QuietWidened(sign: u64, m: nat)
    requires m < 0x80_0000 && (sign == 0 || sign == SIGN)
    ensures Quieted(sign + INF + m * 0x2000_0000) == sign + (INF + QuietFraction(m) * 0x2000_0000)
  {}

  lemma WidenedSpecial(u: u32, m: u32, sign: u64)
    requires Abs32(u) == INF32 + m && m < 0x80_0000
    requires (sign == 0 || sign == SIGN) && (sign == SIGN <==> u >= SIGN32)
    ensures BitOr(sign, INF) < 0x1_0000_0000_0000_0000
            && BitOr(BitOr(sign, INF), Shl64(m, 29)) < 0x1_0000_0000_0000_0000
    ensures var r := BitOr(BitOr(BitOr(sign, INF), Shl64(m, 29)), if m != 0 then QUIET else 0);
            r < 0x1_0000_0000_0000_0000 && IsWidened(u, r)
  {
    hide *;
    Masks();
    Fraction32(m);
    OrFields(sign, 0x7ff, m * 0x2000_0000);
    if m == 0 {
      WidenInf(u, sign);
      SmallBits(sign + INF);
    } else {
      WidenNaN(u, m, sign);
      QuietBit(sign + INF + m * 0x2000_0000);
      QuietWidened(sign, m);
    }
  }

  lemma WidenZero(u: u32, sign: u64)
    requires Abs32(u) == 0
    requires (sign == 0 || sign == SIGN) && (sign == SIGN <==> u >= SIGN32)
    ensures IsWidened(u, sign)
  {
    SubnormalMag32(0);
    SubnormalMagnitude(0);
    SignedWord(sign, 0);
  }

  lemma Clz32Is(x: u32)
    ensures Clz32(x) == 32 - BitLength(x)
  {}

  method FromFloat(u: u32) returns (r: u64)
    ensures IsWidened(u, r)
  {
    Constants32();
    hide *;
    Masks();
    SignUp(u);
    Fields32(u);
    var sign := Shl64(BitAnd(u, SIGN32), 32);
    var e: int, m: u32 := BitAnd(Shr(u, 23), 0xff), BitAnd(u, 0x7f_ffff);
    Clz32Is(m);
    if e == 0xff {
      WidenedSpecial(u, m, sign);
      return BitOr(BitOr(BitOr(sign, INF), Shl64(m, 29)), if m != 0 then QUIET else 0);
    }
    ghost var low: nat := m;
    if e == 0 {
      if m == 0 {
        WidenZero(u, sign);
        return sign;
      }
      Subnormal32(u, BitLength(m));
      var lz := Clz32(m) - 8;
      m := Shl32(m, lz);
      e := 1 - lz;
      low := m - 0x80_0000;
    } else {
      Normal32(u, e, m);
    }
    Normalised32Elim(u, e, low + 0x80_0000);
    WidenedNumber(u, e - 127 + 1023, low, m, sign);
    r := BitOr(BitOr(sign, Shl64(e - 127 + 1023, 52)), Shl64(BitAnd(m, 0x7f_ffff), 29));
  }
}
