// The fields of a binary64 word, what a word stands for, and how NaN operands propagate.

module Binary64Word {
  import opened Bits
  import opened Ieee754

  const SIGN: u64 := 0x8000_0000_0000_0000
  const IMPL: u64 := 0x0010_0000_0000_0000
  const QUIET: u64 := 0x0008_0000_0000_0000
  const INF: u64 := 0x7ff0_0000_0000_0000
  const DNAN: u64 := 0x7ff8_0000_0000_0000

  const FRAC: u64 := 0x000f_ffff_ffff_ffff

  lemma Masks()
    ensures SIGN == 0x8000_0000_0000_0000 && INF == 0x7ff0_0000_0000_0000 && IMPL == 0x0010_0000_0000_0000
    ensures FRAC == 0x000f_ffff_ffff_ffff && QUIET == 0x0008_0000_0000_0000 && DNAN == 0x7ff8_0000_0000_0000
  {}

  // Binary64 has 52 fraction bits and 0x7ff is its all-ones exponent field.
  ghost predicate Rounds64(num: nat, den: nat, w: nat) {
    RoundsTo(52, 0x7ff, num, den, w)
  }

  /** The datum without its sign. */
  function Abs(w: u64): u64 { w % SIGN }

  function SignOf(w: u64): u64 { w - w % SIGN }

  lemma SignAndAbs(w: u64)
    ensures w == SignOf(w) + Abs(w) && Abs(w) < SIGN
    ensures SignOf(w) == if w < SIGN then 0 else SIGN
  {}

  lemma SignedWord(sign: u64, w: u64)
    requires (sign == 0 || sign == SIGN) && w < SIGN
    ensures BitOr(sign, w) == sign + w
    ensures SignOf(sign + w) == sign && Abs(sign + w) == w
  {
    OrSign(sign, w);
  }

  lemma OrSign(sign: u64, w: u64)
    requires (sign == 0 || sign == SIGN) && w < SIGN
    ensures BitOr(sign, w) == sign + w
  {
    hide *;
    Masks();
    Pow2At63();
    HiLoUnique(sign, 63, if sign == 0 then 0 else 1, 0);
    OrDisjoint(sign, w, 63);
  }

  // ---------------------------------------------------------------------------------------------
  // The masks of the source, as arithmetic.

  lemma Fields(w: u64)
    ensures BitAnd(Shr(w, 52), 0x7ff) == Abs(w) / IMPL <= 0x7ff
    ensures BitAnd(w, FRAC) == Abs(w) % IMPL == w % IMPL
    ensures Abs(w) == BitAnd(Shr(w, 52), 0x7ff) * IMPL + BitAnd(w, FRAC)
  {
    hide *;
    Masks();
    SignAndAbs(w);
    Pow2At52();
    Pow2Small();
    ShrIsHi(w, 52);
    HiLo(w, 52);
    AndMask(w, 52);
    var h := Hi(w, 52);
    AndMask(h, 11);
    HiLo(h, 11);
    FieldSplit(w, Hi(h, 11), Lo(h, 11), Lo(w, 52));
  }

  lemma FieldSplit(w: u64, t: nat, x: nat, l: nat)
    requires w == (t * 0x800 + x) * 0x10_0000_0000_0000 + l && x < 0x800 && l < 0x10_0000_0000_0000
    ensures w % 0x8000_0000_0000_0000 == x * 0x10_0000_0000_0000 + l
    ensures w % 0x8000_0000_0000_0000 / 0x10_0000_0000_0000 == x
    ensures w % 0x8000_0000_0000_0000 % 0x10_0000_0000_0000 == l == w % 0x10_0000_0000_0000
  {}

  lemma SignMasks(w: u64)
    ensures BitAnd(w, SIGN) == SignOf(w)
    ensures BitAnd(w, SIGN - 1) == Abs(w)
    ensures BitXor(w, SIGN) == SIGN - SignOf(w) + Abs(w)
  {
    hide *;
    Masks();
    SignAndAbs(w);
    SignAndAbs(SIGN);
    TopBit(w);
    TopBit(SIGN);
    Pow2At63();
    AndMask(w, 63);
    AndHi(w, SIGN, 63);
    AndLo(w, SIGN, 63);
    HiLo(BitAnd(w, SIGN), 63);
    XorHi(w, SIGN, 63);
    XorLo(w, SIGN, 63);
    HiLo(BitXor(w, SIGN), 63);
    SmallBits(Hi(w, 63));
    SmallBits(Lo(w, 63));
  }

  lemma TopBit(w: u64)
    ensures Hi(w, 63) == (if w < SIGN then 0 else 1) && Lo(w, 63) == Abs(w) < SIGN
  {
    hide *;
    Masks();
    SignAndAbs(w);
    Pow2At63();
    HiLoUnique(w, 63, if w < SIGN then 0 else 1, Abs(w));
  }

  // The sign of a product or a quotient, and the test for effective subtraction.
  lemma SignXor(x: u64, y: u64)
    ensures BitXor(x, y) < 0x1_0000_0000_0000_0000
    ensures BitAnd(BitXor(x, y), SIGN) == if SignOf(x) == SignOf(y) then 0 else SIGN
    ensures Shr(BitXor(x, y), 63) != 0 <==> SignOf(x) != SignOf(y)
  {
    hide *;
    Masks();
    TopBit(x);
    TopBit(y);
    SignAndAbs(x);
    SignAndAbs(y);
    XorHi(x, y, 63);
    var z := BitXor(x, y);
    HiLo(z, 63);
    Pow2At63();
    SmallBits(1);
    SmallBits(0);
    SignMasks(z);
    SignAndAbs(z);
    ShrIsHi(z, 63);
  }

  // Setting the implicit bit of a fraction, and the quiet bit of a NaN.

  lemma OrImplicit(m: u64)
    requires m < IMPL
    ensures BitOr(IMPL, m) == IMPL + m
  {
    hide *;
    Masks();
    Pow2At52();
    HiLoUnique(IMPL, 52, 1, 0);
    OrDisjoint(IMPL, m, 52);
  }

  lemma QuietBit(w: u64)
    ensures BitAnd(w, QUIET) == 0 <==> w % IMPL < QUIET
    ensures BitOr(w, QUIET) == Quieted(w)
  {
    QuietBitOf(w, w / QUIET, w % QUIET);
  }

  lemma QuietBitOf(w: u64, h: nat, l: nat)
    requires w == h * QUIET + l && l < QUIET
    ensures BitAnd(w, QUIET) == (h % 2) * QUIET
    ensures BitOr(w, QUIET) == if h % 2 == 0 then w + QUIET else w
  {
    hide *;
    Masks();
    Pow2At52();
    Pow2Up(51, 1);
    HiLoUnique(w, 51, h, l);
    SingleBit(w, 51);
  }

  // ---------------------------------------------------------------------------------------------
  // Classes of data.

  predicate IsNaN(w: u64) { Abs(w) > INF }
  predicate IsInf(w: u64) { Abs(w) == INF }
  predicate IsFinite(w: u64) { Abs(w) < INF }

  /** Bit 51 clear: the NaN is signalling. */
  predicate IsSignalling(w: u64) { IsNaN(w) && w % IMPL < QUIET }

  /** The quiet NaN with the sign and payload of w. */
  function Quieted(w: u64): u64 {
    if w % IMPL < QUIET then w + QUIET else w
  }

  /** Section 6.2 in the ARM64 order: a signalling operand before a quiet one, then the first one. */
  function NaNResult(a: u64, b: u64): u64
    requires IsNaN(a) || IsNaN(b)
  {
    Quieted(if IsSignalling(a) then a else if IsSignalling(b) then b else if IsNaN(a) then a else b)
  }

  /** The magnitude of a finite word, in units of the smallest subnormal. */
  ghost function Mag64(w: u64): nat { Mag(52, Abs(w)) }

  function Magnitude(v: int): nat { if v < 0 then -v else v }

  function Signed(negative: bool, m: int): int { if negative then -m else m }

  ghost function Value(w: u64): int { Signed(w >= SIGN, Mag64(w)) }

  // The class tests the source makes on the two fields.
  lemma ClassByFields(w: u64)
    ensures BitAnd(Shr(w, 52), 0x7ff) == 0x7ff && BitAnd(w, FRAC) != 0 <==> IsNaN(w)
    ensures BitAnd(Shr(w, 52), 0x7ff) == 0x7ff && BitAnd(w, FRAC) == 0 <==> IsInf(w)
    ensures BitAnd(Shr(w, 52), 0x7ff) < 0x7ff <==> IsFinite(w)
  {
    Fields(w);
    FieldClass(Abs(w), BitAnd(Shr(w, 52), 0x7ff), BitAnd(w, FRAC));
  }

  lemma FieldClass(a: nat, e: nat, m: nat)
    requires a == e * IMPL + m && m < IMPL && e <= 0x7ff
    ensures e == 0x7ff && m != 0 <==> a > INF
    ensures e == 0x7ff && m == 0 <==> a == INF
  {}

  function PropNaN(a: u64, b: u64, an: bool, bn: bool): u64 {
    QuietBit(a);
    QuietBit(b);
    if an && BitAnd(a, QUIET) == 0 then BitOr(a, QUIET)
    else if bn && BitAnd(b, QUIET) == 0 then BitOr(b, QUIET)
    else if an then a else b
  }

  lemma PropNaNRule(a: u64, b: u64)
    requires IsNaN(a) || IsNaN(b)
    ensures PropNaN(a, b, IsNaN(a), IsNaN(b)) == NaNResult(a, b)
    ensures IsSignalling(a) ==> NaNResult(a, b) == a + 0x8_0000_0000_0000
    ensures !IsSignalling(a) && IsSignalling(b) ==> NaNResult(a, b) == b + 0x8_0000_0000_0000
    ensures !IsSignalling(a) && !IsSignalling(b) ==> NaNResult(a, b) == if IsNaN(a) then a else b
    ensures IsNaN(NaNResult(a, b)) && !IsSignalling(NaNResult(a, b))
  {
    QuietBit(a);
    QuietBit(b);
    if IsNaN(a) { QuietedNaN(a); }
    if IsNaN(b) { QuietedNaN(b); }
  }

  lemma QuietedNaN(w: u64)
    requires IsNaN(w)
    ensures IsNaN(Quieted(w)) && !IsSignalling(Quieted(w))
    ensures w % IMPL >= QUIET ==> Quieted(w) == w
  {
    if w % IMPL < QUIET {
      AddInField(w, QUIET);
    }
  }

  lemma AddInField(w: u64, c: nat)
    requires w % IMPL + c < IMPL
    ensures w + c < 0x1_0000_0000_0000_0000
    ensures (w + c) % IMPL == w % IMPL + c && Abs(w + c) == Abs(w) + c
  {
    Fields(w);
    hide *;
    Masks();
    SignAndAbs(w);
    DivUnique(w + c, IMPL, w / IMPL, w % IMPL + c);
    SignedAbs(SignOf(w), Abs(w) + c);
  }

  lemma SignedAbs(sign: u64, a: u64)
    requires (sign == 0 || sign == SIGN) && a < SIGN
    ensures Abs(sign + a) == a && SignOf(sign + a) == sign
  {}
}
