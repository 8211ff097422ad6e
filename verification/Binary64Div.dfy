// Division: one correctly rounded quotient from a 63-bit quotient and its exact remainder.

module Binary64Div {
  import opened Bits
  import opened Ieee754
  import opened Binary64Word
  import opened Binary64Round
  import opened Binary64Mul
  import opened NewtonDivide

  /** The dividend in the unit in which dividing by a magnitude leaves smallest subnormals. */
  ghost function ExactDividend(a: u64): nat {
    var x := Mag64(a);
    MulMono(0, x, Pow2(1074));
    x * Pow2(1074)
  }

  /** Sections 5.4.1, 6.1 to 6.3, 7.2 and 7.3: the quotient of any two data. */
  ghost predicate IsQuotient(a: u64, b: u64, r: u64) {
    if IsNaN(a) || IsNaN(b) then r == NaNResult(a, b)
    else if IsInf(a) && IsInf(b) then r == DNAN
    else if Abs(a) == 0 && Abs(b) == 0 then r == DNAN
    else
      && (r >= SIGN <==> SignOf(a) != SignOf(b))
      && (if IsInf(a) || Abs(b) == 0 then Abs(r) == INF
          else if IsInf(b) then Abs(r) == 0
          else Rounds64(ExactDividend(a), Mag64(b), Abs(r)))
  }

  // ---------------------------------------------------------------------------------------------
  // What the jammed quotient represents.

  // From A * c == ma * x, B * c == mb * y and X * y == x * Y the common factors cancel.
  lemma CancelFactors(A: nat, ma: nat, x: nat, B: nat, mb: nat, y: nat, c: nat, X: nat, Y: nat)
    requires c > 0 && A * c == ma * x && B * c == mb * y && X * y == x * Y
    ensures ma * X * B == A * Y * mb
  {
    hide *;
    CancelSide(ma, X, B, mb, y, c);
    CancelSide(mb, Y, A, ma, x, c);
    MulShuffle(mb, Y, A);
    MulShuffle(A, Y, mb);
    MulShuffle(ma, mb, X * y);
    MulShuffle(1, x, Y);
    MulOrder(ma * X * B, mb * Y * A, c);
  }

  lemma CancelSide(m: nat, X: nat, B: nat, n: nat, y: nat, c: nat)
    requires B * c == n * y
    ensures m * X * B * c == m * n * (X * y)
  {
    MulAssoc(m * X, B, c);
    FourFactors(m, X, n, y);
  }

  lemma QuotientScale(a: u64, ea: int, ma: nat, b: u64, eb: int, mb: nat, l: nat, A2: nat, q: nat, rem: nat)
    requires Normalised(a, ea, ma) && Normalised(b, eb, mb) && l <= 1 && A2 == ma * Pow2(l)
    requires A2 * 0x4000_0000_0000_0000 == q * mb + rem && rem < mb
    requires 0x4000_0000_0000_0000 <= q < 0x8000_0000_0000_0000
    ensures Represents(ExactDividend(a), Mag64(b), ea - eb + 1023 - l, Jam(q, rem != 0))
  {
    hide *;
    Masks();
    NormalisedElim(a, ea, ma);
    NormalisedElim(b, eb, mb);
    Pow2At62();
    MulAssoc(ma, Pow2(l), Pow2(62));
    Pow2Add(l, 62);
    DividendIs(a);
    JamBetween(q, rem != 0);
    var m := Jam(q, rem != 0);
    AgreeJam(ma * Pow2(l + 62), mb, q, rem);
    AgreeCoarsen(ma * Pow2(l + 62), mb, m, 2, 2);
    DivisorPositive(Mag64(b), mb, eb);
    QuotientRepresents(Mag64(a), ma, ea, Mag64(b), mb, eb, l, m);
  }

  lemma DividendIs(a: u64)
    ensures ExactDividend(a) == Mag64(a) * Pow2(1074)
  {}

  lemma DivisorPositive(B: nat, mb: nat, eb: int)
    requires eb >= -51 && mb > 0 && B * Pow2(52) == mb * Pow2(eb + 51)
    ensures B > 0
  {
    MulOrder(0, mb, Pow2(eb + 51));
  }

  lemma QuotientRepresents(A: nat, ma: nat, ea: int, B: nat, mb: nat, eb: int, l: nat, m: nat)
    requires -51 <= ea && -51 <= eb && l <= 1 && B > 0 && mb > 0
    requires A * Pow2(52) == ma * Pow2(ea + 51) && B * Pow2(52) == mb * Pow2(eb + 51)
    requires 0x4000_0000_0000_0000 <= m < SIGN && Agree(ma * Pow2(l + 62), mb, m, 4)
    ensures Represents(A * Pow2(1074), B, ea - eb + 1023 - l, m)
  {
    hide *;
    var e := ea - eb + 1023 - l;
    Pow2Small();
    Pow2Add(1074, 10);
    MulAssoc(A, Pow2(1074), Pow2(10));
    if e >= 1 {
      MulOrder(0, B, Pow2(e - 1));
      QuotientAbove(A, ma, ea, B, mb, eb, l, e - 1);
      AgreeScale(ma * Pow2(l + 62), mb, A * Pow2(1084), B * Pow2(e - 1), m, 4);
      RepresentsAbove(A * Pow2(1074), B, e, m);
    } else {
      Pow2Add(1084, 1 - e);
      MulAssoc(A, Pow2(1084), Pow2(1 - e));
      QuotientBelow(A, ma, ea, B, mb, eb, l, 1 - e);
      AgreeScale(ma * Pow2(l + 62), mb, A * Pow2(1085 - e), B, m, 4);
      RepresentsBelow(A * Pow2(1074), B, e, m);
    }
  }

  lemma QuotientAbove(A: nat, ma: nat, ea: int, B: nat, mb: nat, eb: int, l: nat, u: nat)
    requires -51 <= ea && -51 <= eb && u == ea - eb + 1022 - l
    requires A * Pow2(52) == ma * Pow2(ea + 51) && B * Pow2(52) == mb * Pow2(eb + 51)
    ensures ma * Pow2(l + 62) * (B * Pow2(u)) == A * Pow2(1084) * mb
  {
    hide *;
    Pow2Add(l + 62 + u, eb + 51);
    Pow2Add(ea + 51, 1084);
    CancelFactors(A, ma, Pow2(ea + 51), B, mb, Pow2(eb + 51), Pow2(52), Pow2(l + 62 + u), Pow2(1084));
    Pow2Add(l + 62, u);
    MulAssoc(ma, Pow2(l + 62), Pow2(u));
    MulShuffle(ma * Pow2(l + 62), B, Pow2(u));
    MulShuffle(ma * Pow2(l + 62), Pow2(u), B);
  }

  lemma QuotientBelow(A: nat, ma: nat, ea: int, B: nat, mb: nat, eb: int, l: nat, d: nat)
    requires -51 <= ea && -51 <= eb && d == eb - ea - 1022 + l
    requires A * Pow2(52) == ma * Pow2(ea + 51) && B * Pow2(52) == mb * Pow2(eb + 51)
    ensures ma * Pow2(l + 62) * B == A * Pow2(1084 + d) * mb
  {
    hide *;
    Pow2Add(l + 62, eb + 51);
    Pow2Add(ea + 51, 1084 + d);
    CancelFactors(A, ma, Pow2(ea + 51), B, mb, Pow2(eb + 51), Pow2(52), Pow2(l + 62), Pow2(1084 + d));
  }

  // ---------------------------------------------------------------------------------------------
  // The whole operation.

  lemma SpecialQuotient(a: u64, b: u64, sign: u64)
    requires !IsFinite(a) || !IsFinite(b)
    requires (sign == 0 || sign == SIGN) && (sign == SIGN <==> SignOf(a) != SignOf(b))
    ensures IsNaN(a) || IsNaN(b) ==> IsQuotient(a, b, NaNResult(a, b))
    ensures IsInf(a) && IsInf(b) ==> IsQuotient(a, b, DNAN)
    ensures IsInf(a) && IsFinite(b) ==> IsQuotient(a, b, sign + INF)
    ensures IsFinite(a) && IsInf(b) ==> IsQuotient(a, b, sign)
  {
    SignedWord(sign, INF);
    SignedWord(sign, 0);
  }

  lemma ZeroQuotient(a: u64, b: u64, sign: u64)
    requires IsFinite(a) && IsFinite(b)
    requires (sign == 0 || sign == SIGN) && (sign == SIGN <==> SignOf(a) != SignOf(b))
    ensures Abs(a) == 0 && Abs(b) == 0 ==> IsQuotient(a, b, DNAN)
    ensures Abs(a) != 0 && Abs(b) == 0 ==> IsQuotient(a, b, sign + INF)
    ensures Abs(a) == 0 && Abs(b) != 0 ==> IsQuotient(a, b, sign)
  {
    hide Rounds64, Mag64, ExactDividend, Pow2;
    SignedWord(sign, INF);
    SignedWord(sign, 0);
    if Abs(a) == 0 && Abs(b) != 0 {
      ZeroDividend(a);
      PositiveMagnitude(b);
      ZeroRounds(Mag64(b));
    }
  }

  lemma ZeroDividend(a: u64)
    requires Abs(a) == 0
    ensures ExactDividend(a) == 0
  {
    SubnormalMagnitude(0);
  }

  lemma FiniteQuotient(a: u64, b: u64, r: u64)
    requires IsFinite(a) && IsFinite(b) && Abs(b) != 0
    requires Rounds64(ExactDividend(a), Mag64(b), Abs(r)) && (r >= SIGN <==> SignOf(a) != SignOf(b))
    requires Abs(a) != 0
    ensures IsQuotient(a, b, r)
  {}

  lemma PositiveMagnitude(b: u64)
    requires Abs(b) > 0
    ensures Mag64(b) > 0
  {
    SubnormalMagnitude(0);
    MagIncreasing(52, 0, Abs(b));
  }

  method Div(a: u64, b: u64, recip: u32 -> u32) returns (r: u64)
    requires GoodReciprocal(recip)
    ensures IsQuotient(a, b, r)
  {
    hide *;
    Masks();
    SignXor(a, b);
    var sign := BitAnd(BitXor(a, b), SIGN);
    SignedWord(sign, 0);
    SignedWord(sign, INF);
    SignAndAbs(a);
    SignAndAbs(b);
    Fields(a);
    Fields(b);
    ClassByFields(a);
    ClassByFields(b);
    var ea, eb := BitAnd(Shr(a, 52), 0x7ff), BitAnd(Shr(b, 52), 0x7ff);
    var ma, mb := BitAnd(a, FRAC), BitAnd(b, FRAC);
    FiniteByFields(a, ea, ma);
    FiniteByFields(b, eb, mb);
    if ea == 0x7ff || eb == 0x7ff {
      var an, bn := ea == 0x7ff && ma != 0, eb == 0x7ff && mb != 0;
      SpecialQuotient(a, b, sign);
      if an || bn {
        PropNaNRule(a, b);
        return PropNaN(a, b, an, bn);
      }
      if ea == 0x7ff && eb == 0x7ff {
        return DNAN; // inf / inf
      }
      return if ea == 0x7ff then BitOr(sign, INF) else sign; // inf / x, x / inf
    }
    ZeroQuotient(a, b, sign);
    if eb == 0 && mb == 0 {
      return if ea == 0 && ma == 0 then DNAN else BitOr(sign, INF); // x / 0
    }
    if ea == 0 && ma == 0 {
      return sign;
    }
    ea, ma := Normalise(a, ea, ma);
    eb, mb := Normalise(b, eb, mb);
    r := DivNormalised(a, b, sign, ea, ma, eb, mb, recip);
    SignAndAbs(r);
    FiniteQuotient(a, b, r);
  }

  lemma Doubled(m: u64)
    requires m < 0x20_0000_0000_0000
    ensures Shl64(m, 1) == m * Pow2(1) == 2 * m && m * Pow2(0) == m
  {
    Pow2Small();
  }

  /** The quotient of two normalised operands: 63 bits and a sticky bit from the exact remainder. */
  method DivNormalised(ghost a: u64, ghost b: u64, sign: u64, ea: int, ma: u64, eb: int, mb: u64, recip: u32 -> u32)
    returns (r: u64)
    requires GoodReciprocal(recip)
    requires (sign == 0 || sign == SIGN) && Normalised(a, ea, ma) && Normalised(b, eb, mb)
    ensures SignOf(r) == sign && Rounds64(ExactDividend(a), Mag64(b), Abs(r))
  {
    hide *;
    Masks();
    NormalisedElim(a, ea, ma);
    NormalisedElim(b, eb, mb);
    Doubled(ma);
    var lt := ma < mb;
    var e := ea - eb + 1023 - (if lt then 1 else 0);
    var A2 := if lt then Shl64(ma, 1) else ma;
    var Q, rem := DivideSignificands(A2, mb, recip);
    QuotientScale(a, ea, ma, b, eb, mb, if lt then 1 else 0, A2, Q, rem);
    OrSticky(Q, rem);
    JamBetween(Q, rem != 0);
    DivisorPositive(Mag64(b), mb, eb);
    r := RoundPack(sign, e, BitOr(Q, if rem != 0 then 1 else 0), ExactDividend(a), Mag64(b));
  }
}
