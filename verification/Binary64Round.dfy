// Sticky shifts and the shared round-and-pack step of the software binary64.

module Binary64Round {
  import opened Bits
  import opened Ieee754
  import opened Binary64Word

  // ---------------------------------------------------------------------------------------------
  // Shifting right and remembering in the last bit whether anything was lost.

  /** Right shift keeping a sticky bit, without ever shifting by 64. */
  function ShrJam(m: u64, s: nat): u64 {
    var sc := if s > 63 then 63 else s;
    var lost := Shl64(Shl64(m, 63 - sc), 1);
    var big := s > 63;
    var rr := if big then 0 else Shr(m, sc);
    var st := if big then m else lost;
    OrOne(rr);
    BitOr(rr, if st != 0 then 1 else 0)
  }

  /** floor(q) with the last bit forced to one when something was lost. */
  function Jam(q: nat, lost: bool): nat {
    if lost && q % 2 == 0 then q + 1 else q
  }

  lemma ShrJamExact(m: u64, s: nat)
    ensures ShrJam(m, s) == Jam(Hi(m, s), Lo(m, s) != 0)
  {
    if s > 63 {
      Pow2At64();
      Pow2Monotone(64, s);
      HiLoUnique(m, s, 0, m);
      OrOne(0);
    } else {
      HiLoDivMod(m, s);
      OrOne(Hi(m, s));
      LostBits(m, s);
      MulOrder(0, Lo(m, s), Pow2(64 - s));
    }
  }

  // (m << (63 - s)) << 1 keeps exactly the s bits that m >> s drops.
  lemma LostBits(m: u64, s: nat)
    requires s <= 63
    ensures Shl64(Shl64(m, 63 - s), 1) == Lo(m, s) * Pow2(64 - s)
  {
    LostProduct(m, s);
    Shl64Twice(m, Pow2(63 - s), Pow2(64 - s));
    Pow2Small();
  }

  lemma LostProduct(m: u64, s: nat)
    requires s <= 63
    ensures (m * Pow2(64 - s)) % TWO64 == Lo(m, s) * Pow2(64 - s)
  {
    HiLo(m, s);
    Pow2Add(s, 64 - s);
    Pow2At64();
    SplitProduct(m, Hi(m, s), Lo(m, s), Pow2(s), Pow2(64 - s));
  }

  lemma SplitProduct(m: nat, h: nat, l: nat, p: nat, b: nat)
    requires m == h * p + l && l < p && p * b == TWO64 && b > 0
    ensures (m * b) % TWO64 == l * b && (m * b) / TWO64 == h
  {
    ScaledLess(l, p, b);
    MulDist(h * p, l, b);
    MulAssoc(h, p, b);
    MulMono(0, l, b);
    DivUnique(m * b, TWO64, h, l * b);
  }

  lemma Shl64Twice(m: nat, a: nat, b: nat)
    requires b == 2 * a
    ensures ((m * a) % TWO64 * 2) % TWO64 == (m * b) % TWO64
  {
    MulShuffle(m, a, 2);
    DoubleModulo(m * a);
  }

  lemma DoubleModulo(t: nat)
    ensures ((t % TWO64) * 2) % TWO64 == (t * 2) % TWO64
  {}

  // ---------------------------------------------------------------------------------------------
  // How a significand with a sticky bit stands for an exact rational.

  /** m lies on the same side of every multiple of g as num/den does, and on it when num/den does. */
  ghost predicate Agree(num: nat, den: nat, m: nat, g: nat)
    requires g > 0
  {
    var h := m / g;
    h * (den * g) <= num < (h + 1) * (den * g) && (num == h * (den * g) <==> m % g == 0)
  }

  lemma AgreeExact(den: nat, m: nat, g: nat)
    requires den > 0 && g > 0
    ensures Agree(m * den, den, m, g)
  {
    var h, c := m / g, m % g;
    assert m == h * g + c;
    MulDist(h * g, c, den);
    MulShuffle(h, g, den);
    MulSucc(h, den * g);
    ScaledLess(c, g, den);
    assert g * den == den * g;
    if c > 0 { ScaledLess(0, c, den); }
  }

  lemma AgreeJam(num: nat, den: nat, q: nat, rho: nat)
    requires den > 0 && num == q * den + rho && rho < den
    ensures Agree(num, den, Jam(q, rho != 0), 2)
  {
    var m := Jam(q, rho != 0);
    var h := m / 2;
    MulShuffle(h, den, 2);
    MulSucc(h, den * 2);
    if q % 2 == 0 {
      assert q == 2 * h;
      MulShuffle(h, 2, den);
    } else {
      assert q == 2 * h + 1;
      MulSucc(2 * h, den);
      MulShuffle(h, 2, den);
    }
  }

  lemma AgreeCoarsen(num: nat, den: nat, m: nat, g: nat, k: nat)
    requires den > 0 && g > 0 && k > 0 && Agree(num, den, m, g)
    ensures g * k > 0 && Agree(num, den, m, g * k)
  {
    var h := m / g;
    MulMono(1, g, k);
    DivDiv(m, g, k);
    CoarserBounds(num, den * g, h, k);
    MulAssoc(den, g, k);
  }

  lemma DivDiv(m: nat, g: nat, k: nat)
    requires g > 0 && k > 0 && g * k > 0
    ensures m / (g * k) == m / g / k
    ensures m % (g * k) == 0 <==> m % g == 0 && m / g % k == 0
  {
    var h, c := m / g, m % g;
    var H, d := h / k, h % k;
    assert m == h * g + c && h == H * k + d;
    MulDist(H * k, d, g);
    MulShuffle(H, k, g);
    MulMono(d + 1, k, g);
    MulSucc(d, g);
    MulMono(0, d, g);
    DivUnique(m, g * k, H, d * g + c);
    MulOrder(0, d, g);
  }

  lemma CoarserBounds(num: int, dg: int, h: int, k: int)
    requires dg >= 0 && k > 0 && h * dg <= num < (h + 1) * dg
    ensures (h / k) * (dg * k) <= num < (h / k + 1) * (dg * k)
    ensures num == (h / k) * (dg * k) <==> num == h * dg && h % k == 0
  {
    var H, d := h / k, h % k;
    assert h == H * k + d;
    MulShuffle(H, dg, k);
    MulShuffle(H, k, dg);
    MulDist(H * k, d, dg);
    MulSucc(H, dg * k);
    MulSucc(h, dg);
    MulMono(0, d, dg);
    MulMono(d + 1, k, dg);
    MulSucc(d, dg);
    if dg > 0 { MulOrder(0, d, dg); }
  }

  lemma AgreeScale(num: nat, den: nat, num': nat, den': nat, m: nat, g: nat)
    requires den > 0 && den' > 0 && g > 0 && Agree(num, den, m, g)
    requires num * den' == num' * den
    ensures Agree(num', den', m, g)
  {
    var h := m / g;
    AgreeScaleSide(num, den, num', den', h, g);
    AgreeScaleSide(num, den, num', den', h + 1, g);
  }

  lemma AgreeScaleSide(num: nat, den: nat, num': nat, den': nat, h: nat, g: nat)
    requires den > 0 && den' > 0 && g > 0 && num * den' == num' * den
    ensures num < h * (den * g) <==> num' < h * (den' * g)
    ensures num == h * (den * g) <==> num' == h * (den' * g)
  {
    var a, b := h * (den * g), h * (den' * g);
    assert a * den' == b * den by {
      MulShuffle(h, den * g, den');
      MulShuffle(h, den' * g, den);
      MulShuffle(den, g, den');
      MulShuffle(den', g, den);
      assert den * g * den' == den' * g * den;
      assert a * den' == h * (den * g * den');
      assert b * den == h * (den' * g * den);
    }
    MulOrder(num, a, den');
    MulOrder(num', b, den);
  }

  // A jammed right shift divides the represented value by a power of two: afterwards the last bit
  // is again a sticky bit, even when the bits below the last two were not exact before.
  lemma AgreeShrJam(num: nat, den: nat, m: u64, k: nat)
    requires den > 0 && k >= 1 && Agree(num, den, m, 4)
    ensures Agree(num, den * Pow2(k), ShrJam(m, k), 2)
  {
    JamHalves(m, k);
    AgreeCoarsen(num, den, m, 4, Pow2(k - 1));
    MulShuffle(den, Pow2(k), 2);
  }

  lemma JamHalves(m: u64, k: nat)
    requires k >= 1
    ensures ShrJam(m, k) / 2 == m / (4 * Pow2(k - 1))
    ensures ShrJam(m, k) % 2 == 0 <==> m % (4 * Pow2(k - 1)) == 0
  {
    ShrJamExact(m, k);
    HiLoDivMod(m, k + 1);
    HiLoNext(m, k);
    JamHalf(Hi(m, k), Lo(m, k), Pow2(k));
    assert Pow2(k + 1) == 4 * Pow2(k - 1);
  }

  lemma JamHalf(q: nat, l: nat, p: nat)
    requires p >= 1
    ensures Jam(q, l != 0) / 2 == q / 2
    ensures Jam(q, l != 0) % 2 == 0 <==> (q % 2) * p + l == 0
  {
    if q % 2 == 1 {
      assert (q % 2) * p == p;
    }
  }

  lemma AgreeDouble(num: nat, den: nat, m: nat)
    requires den > 0 && Agree(num, den, m, 2)
    ensures Agree(2 * num, den, 2 * m, 4)
  {
    var h := m / 2;
    MulShuffle(h, 2, den * 2);
    MulShuffle(h + 1, 2, den * 2);
  }

  // ---------------------------------------------------------------------------------------------
  // Rounding and packing.

  /** The value m * 2^(e - 1085) of an exponent and a significand with ten guard bits stands for
      num/den smallest subnormals (2^-1074): dividing by 2^-1074 leaves m * 2^(e - 11). */
  ghost predicate Represents(num: nat, den: nat, e: int, m: nat) {
    && m < SIGN
    && (e >= 2 ==> m >= 0x4000_0000_0000_0000)
    && (if e >= 1 then Agree(num * 0x400, den * Pow2(e - 1), m, 4)
        else Agree(num * 0x400 * Pow2(1 - e), den, m, 4))
  }

  // From exponent 0x7ff on, the value is at least 2^1024.
  lemma OverflowsFrom(num: nat, den: nat, e: int, m: nat)
    requires den > 0 && e >= 0x7ff && Represents(num, den, e, m)
    ensures Rounds64(num, den, INF)
  {
    var emax := 0x7ff;
    var h, t := Pow2(emax - 3), den * Pow2(e - 1);
    Pow2Monotone(emax - 1, e - 1);
    assert Pow2(emax - 1) == 4 * h;
    MulMono2(4 * h, Pow2(e - 1), den);
    MulShuffle(den, 4, h);
    MulMono(0x1000_0000_0000_0000, m / 4, t * 4);
    MulShuffle(0x40_0000_0000_0000 - 1, h, den);
    MulMono(0, h, den);
    Pow2At52();
    Pow2Up(52, 2);
  }

  // Below it, the significand once shifted to a nonnegative binade decides every half-ulp question.
  lemma AgreeToHalfUlps(num: nat, den: nat, e: int, m: nat)
    requires den > 0 && e < 0x7ff && Represents(num, den, e, m)
    ensures e >= 1 ==> m < SIGN && (e >= 2 ==> m >= 0x4000_0000_0000_0000)
    ensures e >= 1 ==> den * Pow2(e - 1) > 0 && Agree(num * 0x400, den * Pow2(e - 1), m, 0x200)
    ensures e <= 0 ==> ShrJam(m, 1 - e) < SIGN && den * Pow2(0) > 0
                       && Agree(num * 0x400, den * Pow2(0), ShrJam(m, 1 - e), 0x200)
  {
    if e >= 1 {
      MulMono(1, den, Pow2(e - 1));
      AgreeCoarsen(num * 0x400, den * Pow2(e - 1), m, 4, 0x80);
    } else {
      var k := 1 - e;
      var p := Pow2(k);
      ShrJamExact(m, k);
      HiLo(m, k);
      MulMono2(2, p, Hi(m, k));
      AgreeShrJam(num * 0x400 * p, den, m, k);
      MulMono(1, den, p);
      MulShuffle(num * 0x400, p, den);
      AgreeScale(num * 0x400 * p, den * p, num * 0x400, den, ShrJam(m, k), 2);
      AgreeCoarsen(num * 0x400, den, ShrJam(m, k), 2, 0x100);
    }
  }

  // The ten guard bits compare the discarded part with half an ulp.
  lemma HalfUlpTest(num: nat, unit: nat, m: nat)
    requires unit > 0 && Agree(num * 0x400, unit, m, 0x200)
    ensures var rho := num - (m / 0x400) * unit;
            && 0 <= rho < unit
            && (2 * rho > unit <==> m % 0x400 > 0x200)
            && (2 * rho == unit <==> m % 0x400 == 0x200)
  {
    var h, q := m / 0x200, m / 0x400;
    MulShuffle(h, unit, 0x200);
    MulShuffle(h + 1, unit, 0x200);
    MulSucc(h, unit);
    MulShuffle(2, q, unit);
    if h == 2 * q + 1 {
      MulSucc(2 * q, unit);
    }
  }

  function Rounded(m: nat): nat {
    if m % 0x400 > 0x200 || (m % 0x400 == 0x200 && m / 0x400 % 2 == 1) then m / 0x400 + 1 else m / 0x400
  }

  // Rounding the guard bits away and adding the exponent field packs the correctly rounded word.
  lemma PackRounded(num: nat, den: nat, e: nat, m: nat)
    requires den > 0 && 1 <= e < 0x7ff && m < SIGN && (e >= 2 ==> m >= 0x4000_0000_0000_0000)
    requires den * Pow2(e - 1) > 0 && Agree(num * 0x400, den * Pow2(e - 1), m, 0x200)
    ensures (e - 1) * IMPL + Rounded(m) < SIGN
    ensures Rounds64(num, den, (e - 1) * IMPL + Rounded(m))
  {
    hide *;
    Masks();
    var unit, q := den * Pow2(e - 1), m / 0x400;
    HalfUlpTest(num, unit, m);
    RoundInBinade64(num, den, e, q, num - q * unit);
    RoundedIs(m);
    RoundsUpIs(den, e, q, num - q * unit);
  }

  lemma RoundedIs(m: nat)
    ensures Rounded(m)
         == if m % 0x400 > 0x200 || (m % 0x400 == 0x200 && m / 0x400 % 2 == 1) then m / 0x400 + 1 else m / 0x400
  {}

  lemma RoundsUpIs(den: nat, e: nat, q: nat, rho: nat)
    requires e >= 1
    ensures RoundsUp(den, e, q, rho) <==> 2 * rho > den * Pow2(e - 1) || (2 * rho == den * Pow2(e - 1) && q % 2 == 1)
  {}

  lemma RoundInBinade64(num: nat, den: nat, e: nat, q: nat, rho: nat)
    requires den > 0 && 1 <= e < 0x7ff && q < 2 * IMPL && (e >= 2 ==> q >= IMPL)
    requires rho < den * Pow2(e - 1) && num == q * (den * Pow2(e - 1)) + rho
    ensures Rounds64(num, den, (e - 1) * IMPL + if RoundsUp(den, e, q, rho) then q + 1 else q)
  {
    Pow2At52();
    Pow2Up(52, 1);
    RoundSignificand(52, 0x7ff, num, den, e, q, rho);
  }

  lemma ExponentField(e: nat)
    requires e < 0x800
    ensures Shl64(e, 52) == e * IMPL
  {
    Pow2At52();
  }

  lemma RoundedByMasks(m: u64)
    ensures Shr(m, 10) == m / 0x400
    ensures Rounded(m) == if BitAnd(m, 0x3ff) > 0x200 || (BitAnd(m, 0x3ff) == 0x200 && BitAnd(m / 0x400, 1) == 1)
                          then m / 0x400 + 1 else m / 0x400
  {
    Pow2Small();
    AndMask(m, 10);
    HiLoDivMod(m, 10);
    AndHalf(m / 0x400, 1);
  }

  lemma RoundPackCorrect(num: nat, den: nat, e: int, m: u64)
    requires den > 0 && e < 0x7ff && Represents(num, den, e, m)
    ensures var e' := if e <= 0 then 1 else e;
            var m' := if e <= 0 then ShrJam(m, 1 - e) else m;
            && (e' - 1) * IMPL + Rounded(m') < SIGN
            && Rounds64(num, den, (e' - 1) * IMPL + Rounded(m'))
  {
    hide *;
    Masks();
    AgreeToHalfUlps(num, den, e, m);
    if e <= 0 {
      PackRounded(num, den, 1, ShrJam(m, 1 - e));
    } else {
      PackRounded(num, den, e, m);
    }
  }

  /** Round to nearest even and pack; `num`/`den` is the exact magnitude that e and m stand for. */
  method RoundPack(sign: u64, e0: int, m0: u64, ghost num: nat, ghost den: nat) returns (w: u64)
    requires sign == 0 || sign == SIGN
    requires den > 0 && Represents(num, den, e0, m0)
    ensures SignOf(w) == sign && Rounds64(num, den, Abs(w))
  {
    hide *;
    Masks();
    var e, m := e0, m0;
    if e >= 0x7ff {
      OverflowsFrom(num, den, e, m);
      SignedWord(sign, INF);
      return BitOr(sign, INF);
    }
    RoundPackCorrect(num, den, e, m);
    if e <= 0 {
      m := ShrJam(m, 1 - e);
      e := 1;
    }
    RoundedByMasks(m);
    ExponentField(e - 1);
    SignedWord(sign, (e - 1) * IMPL + Rounded(m));
    var r := BitAnd(m, 0x3ff);
    m := Shr(m, 10);
    if r > 0x200 || (r == 0x200 && BitAnd(m, 1) == 1) {
      m := m + 1;
    }
    w := BitOr(sign, Shl64(e - 1, 52) + m);
  }
}
