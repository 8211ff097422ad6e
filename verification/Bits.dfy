// Machine words as bounded integers: powers of two, the bitwise operators, shifts, leading zeros.

module Bits {

  const TWO64 := 0x1_0000_0000_0000_0000
  const TWO63 := 0x8000_0000_0000_0000
  const TWO32 := 0x1_0000_0000

  type u64 = x: int | 0 <= x < 0x1_0000_0000_0000_0000
  type i64 = x: int | -0x8000_0000_0000_0000 <= x < 0x8000_0000_0000_0000
  type u32 = x: int | 0 <= x < 0x1_0000_0000

  function Pow2(n: nat): (p: nat)
    ensures p >= 1
  {
    if n == 0 then 1 else 2 * Pow2(n - 1)
  }

  lemma {:induction false} Pow2Add(a: nat, b: nat)
    ensures Pow2(a + b) == Pow2(a) * Pow2(b)
  {
    if a > 0 {
      Pow2Add(a - 1, b);
      MulAssoc(2, Pow2(a - 1), Pow2(b));
    }
  }

  lemma {:induction false} Pow2Monotone(a: nat, b: nat)
    requires a <= b
    ensures Pow2(a) <= Pow2(b)
    ensures a < b ==> 2 * Pow2(a) <= Pow2(b)
  {
    if a < b {
      Pow2Monotone(a, b - 1);
    }
  }

  // Bitwise operators on naturals, bit by bit.

  function BitAnd(a: nat, b: nat): nat {
    if a == 0 || b == 0 then 0
    else 2 * BitAnd(a / 2, b / 2) + (if a % 2 == 1 && b % 2 == 1 then 1 else 0)
  }

  function BitOr(a: nat, b: nat): nat
    decreases a + b
  {
    if a == 0 then b else if b == 0 then a
    else 2 * BitOr(a / 2, b / 2) + (if a % 2 == 1 || b % 2 == 1 then 1 else 0)
  }

  function BitXor(a: nat, b: nat): nat
    decreases a + b
  {
    if a == 0 then b else if b == 0 then a
    else 2 * BitXor(a / 2, b / 2) + (if a % 2 != b % 2 then 1 else 0)
  }

  // Products, one identity at a time.

  lemma MulMono(a: int, b: int, c: int)
    requires a <= b && c >= 0
    ensures a * c <= b * c
  {}

  lemma MulSucc(a: int, b: int)
    ensures (a + 1) * b == a * b + b
  {}

  lemma MulDist(a: int, b: int, c: int)
    ensures (a + b) * c == a * c + b * c
  {}

  lemma MulOrder(a: int, b: int, c: int)
    requires c > 0
    ensures a < b <==> a * c < b * c
    ensures a == b <==> a * c == b * c
  {
    if a < b { MulMono(a + 1, b, c); } else { MulMono(b, a, c); }
    if b < a { MulMono(b + 1, a, c); }
  }

  lemma MulAssoc(a: int, b: int, c: int)
    ensures a * b * c == a * (b * c)
  {}

  lemma MulShuffle(a: int, b: int, c: int)
    ensures a * b * c == a * (b * c) == a * (c * b) == b * (a * c) == b * a * c
  {}

  lemma MulMono2(a: int, b: int, c: int)
    requires a <= b && c >= 0
    ensures c * a <= c * b
  {}

  lemma BoundedProduct(a: int, c: int, m: int, n: int)
    requires -m <= a <= m && -n <= c <= n
    ensures -(m * n) <= a * c <= m * n
  {
    var d := if c >= 0 then c else -c;
    MulMono(-m, a, d);
    MulMono(a, m, d);
    MulMono2(d, n, m);
    MinusProduct(a, d);
    MinusProduct(m, d);
  }

  lemma MinusProduct(a: int, c: int)
    ensures a * -c == -(a * c) && -a * c == -(a * c)
  {}

  lemma DivUnique(a: int, d: int, q: int, r: int)
    requires d > 0 && 0 <= r < d && a == q * d + r
    ensures a / d == q && a % d == r
  {
    var q', r' := a / d, a % d;
    assert (q - q') * d == r' - r by {
      assert a == q' * d + r';
      assert (q - q') * d == q * d - q' * d;
    }
    if q > q' {
      MulMono(1, q - q', d);
    } else if q < q' {
      MulMono(q - q', -1, d);
    }
  }

  // The bits of a from position k up, and the bits below k.
  function Hi(a: nat, k: nat): nat
    decreases k, a
  {
    if k == 0 then a else Hi(a / 2, k - 1)
  }

  function Lo(a: nat, k: nat): nat
    decreases k, a
  {
    if k == 0 then 0 else 2 * Lo(a / 2, k - 1) + a % 2
  }

  lemma {:induction false} HiLo(a: nat, k: nat)
    ensures a == Hi(a, k) * Pow2(k) + Lo(a, k)
    ensures Lo(a, k) < Pow2(k)
  {
    if k > 0 {
      HiLo(a / 2, k - 1);
      MulShuffle(Hi(a, k), 2, Pow2(k - 1));
    }
  }

  lemma HiLoDivMod(a: nat, k: nat)
    ensures Hi(a, k) == a / Pow2(k)
    ensures Lo(a, k) == a % Pow2(k)
  {
    HiLo(a, k);
    DivUnique(a, Pow2(k), Hi(a, k), Lo(a, k));
  }

  lemma HiLoUnique(a: nat, k: nat, h: nat, l: nat)
    requires l < Pow2(k) && a == h * Pow2(k) + l
    ensures Hi(a, k) == h && Lo(a, k) == l
  {
    HiLoDivMod(a, k);
    DivUnique(a, Pow2(k), h, l);
  }

  lemma {:induction false} HiLoNext(m: nat, k: nat)
    ensures Hi(m, k + 1) == Hi(m, k) / 2
    ensures Lo(m, k + 1) == (Hi(m, k) % 2) * Pow2(k) + Lo(m, k)
  {
    if k > 0 {
      HiLoNext(m / 2, k - 1);
    }
  }

  // Each operator acts separately on the bits above and below any position.

  lemma AndHalf(a: nat, b: nat)
    ensures BitAnd(a, b) / 2 == BitAnd(a / 2, b / 2)
    ensures BitAnd(a, b) % 2 == if a % 2 == 1 && b % 2 == 1 then 1 else 0
  {}

  lemma {:induction false} AndHi(a: nat, b: nat, k: nat)
    ensures Hi(BitAnd(a, b), k) == BitAnd(Hi(a, k), Hi(b, k))
  {
    if k > 0 {
      AndHi(a / 2, b / 2, k - 1);
      AndHalf(a, b);
    }
  }

  lemma {:induction false} AndLo(a: nat, b: nat, k: nat)
    ensures Lo(BitAnd(a, b), k) == BitAnd(Lo(a, k), Lo(b, k))
  {
    if k > 0 {
      AndLo(a / 2, b / 2, k - 1);
      AndHalf(a, b);
      AndLast(Lo(a / 2, k - 1), a % 2, Lo(b / 2, k - 1), b % 2);
    }
  }

  lemma AndLast(x: nat, c: nat, y: nat, d: nat)
    requires c <= 1 && d <= 1
    ensures BitAnd(2 * x + c, 2 * y + d) == 2 * BitAnd(x, y) + (if c == 1 && d == 1 then 1 else 0)
  {
    assert (2 * x + c) / 2 == x && (2 * y + d) / 2 == y;
  }

  lemma OrHalf(a: nat, b: nat)
    ensures BitOr(a, b) / 2 == BitOr(a / 2, b / 2)
    ensures BitOr(a, b) % 2 == if a % 2 == 1 || b % 2 == 1 then 1 else 0
  {}

  lemma {:induction false} OrHi(a: nat, b: nat, k: nat)
    ensures Hi(BitOr(a, b), k) == BitOr(Hi(a, k), Hi(b, k))
  {
    if k > 0 {
      OrHi(a / 2, b / 2, k - 1);
      OrHalf(a, b);
    }
  }

  lemma {:induction false} OrLo(a: nat, b: nat, k: nat)
    ensures Lo(BitOr(a, b), k) == BitOr(Lo(a, k), Lo(b, k))
  {
    if k > 0 {
      OrLo(a / 2, b / 2, k - 1);
      OrHalf(a, b);
      OrLast(Lo(a / 2, k - 1), a % 2, Lo(b / 2, k - 1), b % 2);
    }
  }

  lemma OrLast(x: nat, c: nat, y: nat, d: nat)
    requires c <= 1 && d <= 1
    ensures BitOr(2 * x + c, 2 * y + d) == 2 * BitOr(x, y) + (if c == 1 || d == 1 then 1 else 0)
  {
    assert (2 * x + c) / 2 == x && (2 * y + d) / 2 == y;
  }

  lemma XorHalf(a: nat, b: nat)
    ensures BitXor(a, b) / 2 == BitXor(a / 2, b / 2)
    ensures BitXor(a, b) % 2 == if a % 2 != b % 2 then 1 else 0
  {}

  lemma {:induction false} XorHi(a: nat, b: nat, k: nat)
    ensures Hi(BitXor(a, b), k) == BitXor(Hi(a, k), Hi(b, k))
  {
    if k > 0 {
      XorHi(a / 2, b / 2, k - 1);
      XorHalf(a, b);
    }
  }

  lemma {:induction false} XorLo(a: nat, b: nat, k: nat)
    ensures Lo(BitXor(a, b), k) == BitXor(Lo(a, k), Lo(b, k))
  {
    if k > 0 {
      XorLo(a / 2, b / 2, k - 1);
      XorHalf(a, b);
      XorLast(Lo(a / 2, k - 1), a % 2, Lo(b / 2, k - 1), b % 2);
    }
  }

  lemma XorLast(x: nat, c: nat, y: nat, d: nat)
    requires c <= 1 && d <= 1
    ensures BitXor(2 * x + c, 2 * y + d) == 2 * BitXor(x, y) + (if c != d then 1 else 0)
  {
    assert (2 * x + c) / 2 == x && (2 * y + d) / 2 == y;
  }

  // Masking with 2^k - 1 keeps the low k bits.
  lemma {:induction false} AndMask(a: nat, k: nat)
    ensures BitAnd(a, Pow2(k) - 1) == Lo(a, k)
  {
    if k > 0 {
      var m := Pow2(k) - 1;
      assert m / 2 == Pow2(k - 1) - 1 && m % 2 == 1;
      AndMask(a / 2, k - 1);
      AndHalf(a, m);
    }
  }

  // Or-ing fields that do not overlap is addition.
  lemma OrDisjoint(a: nat, b: nat, k: nat)
    requires Lo(a, k) == 0 && b < Pow2(k)
    ensures BitOr(a, b) == a + b
  {
    OrHi(a, b, k);
    OrLo(a, b, k);
    HiLoUnique(b, k, 0, b);
    HiLo(a, k);
    HiLo(BitOr(a, b), k);
  }

  lemma OrOne(a: nat)
    ensures BitOr(a, 1) == if a % 2 == 0 then a + 1 else a
  {
    OrLast(a / 2, a % 2, 0, 1);
  }

  // A mask of a single bit tests it or sets it.
  lemma SingleBit(w: nat, k: nat)
    ensures BitAnd(w, Pow2(k)) == (Hi(w, k) % 2) * Pow2(k)
    ensures BitOr(w, Pow2(k)) == w + (1 - Hi(w, k) % 2) * Pow2(k)
  {
    hide *;
    var p, h, l := Pow2(k), Hi(w, k), Lo(w, k);
    HiLo(w, k);
    HiLoUnique(p, k, 1, 0);
    AndHi(w, p, k);
    AndLo(w, p, k);
    HiLo(BitAnd(w, p), k);
    OrHi(w, p, k);
    OrLo(w, p, k);
    HiLo(BitOr(w, p), k);
    SmallBits(h);
    SmallBits(l);
    OrOne(h);
    if h % 2 == 0 { MulSucc(h, p); }
  }

  lemma SmallBits(a: nat)
    ensures BitAnd(a, 0) == 0 && BitXor(a, 0) == a && BitXor(0, a) == a && BitOr(a, 0) == a && BitOr(0, a) == a
    ensures BitAnd(0, a) == 0 && BitAnd(a, 1) == a % 2
    ensures BitXor(0, 1) == 1 && BitXor(1, 1) == 0
  {
    AndHalf(a, 1);
  }

  // Leading zeros.

  function BitLength(x: nat): nat {
    if x == 0 then 0 else 1 + BitLength(x / 2)
  }

  lemma {:induction false} BitLengthBounds(x: nat)
    requires x > 0
    ensures BitLength(x) >= 1
    ensures Pow2(BitLength(x) - 1) <= x < Pow2(BitLength(x))
  {
    if x > 1 {
      BitLengthBounds(x / 2);
    } else {
      assert BitLength(x / 2) == 0;
    }
  }

  lemma {:induction false} BitLengthAtMost(x: nat, k: nat)
    requires x < Pow2(k)
    ensures BitLength(x) <= k
  {
    if x > 0 {
      BitLengthAtMost(x / 2, k - 1);
    }
  }

  lemma {:induction false} BitLengthAtLeast(x: nat, k: nat)
    requires Pow2(k) <= x
    ensures BitLength(x) > k
  {
    if k > 0 {
      BitLengthAtLeast(x / 2, k - 1);
    }
  }

  // The powers that name the fields of the formats.

  lemma {:induction false} Pow2Tens(i: nat)
    requires i <= 6
    ensures Pow2(10 * i)
            == [1, 0x400, 0x10_0000, 0x4000_0000, 0x100_0000_0000, 0x4_0000_0000_0000, 0x1000_0000_0000_0000][i]
  {
    if i > 0 {
      Pow2Tens(i - 1);
      Pow2Up(10 * (i - 1) + 5, 5);
      Pow2Up(10 * (i - 1), 5);
    }
  }

  lemma Pow2Up(n: nat, k: nat)
    requires k <= 5
    ensures Pow2(n + k) == [1, 2, 4, 8, 16, 32][k] * Pow2(n)
  {
    if k >= 1 { assert Pow2(n + 1) == 2 * Pow2(n); }
    if k >= 2 { assert Pow2(n + 2) == 2 * Pow2(n + 1); }
    if k >= 3 { assert Pow2(n + 3) == 2 * Pow2(n + 2); }
    if k >= 4 { assert Pow2(n + 4) == 2 * Pow2(n + 3); }
  }

  lemma Pow2Small()
    ensures Pow2(0) == 1 && Pow2(1) == 2 && Pow2(10) == 0x400 && Pow2(11) == 0x800
  {
    Pow2Tens(1);
    Pow2Up(10, 1);
  }

  lemma Pow2At23() ensures Pow2(23) == 0x80_0000 {
    Pow2Tens(2);
    Pow2Up(20, 3);
  }

  lemma Pow2At29() ensures Pow2(29) == 0x2000_0000 {
    Pow2Tens(2);
    Pow2Up(20, 5);
    Pow2Up(25, 4);
  }

  lemma Pow2At32() ensures Pow2(32) == 0x1_0000_0000 {
    Pow2Tens(3);
    Pow2Up(30, 2);
  }

  lemma Pow2At52() ensures Pow2(52) == 0x10_0000_0000_0000 {
    Pow2Tens(5);
    Pow2Up(50, 2);
  }

  lemma Pow2At62() ensures Pow2(62) == 0x4000_0000_0000_0000 {
    Pow2Tens(6);
    Pow2Up(60, 2);
  }

  lemma Pow2At63() ensures Pow2(63) == 0x8000_0000_0000_0000 {
    Pow2Tens(6);
    Pow2Up(60, 3);
  }

  lemma Pow2At64() ensures Pow2(64) == 0x1_0000_0000_0000_0000 {
    Pow2Tens(6);
    Pow2Up(60, 4);
  }

  // Shifts as the hardware does them on 64-bit words, for counts below 64.

  function Shl64(x: u64, s: nat): u64
    requires s < 64
  {
    (x * Pow2(s)) % TWO64
  }

  function Shr(x: u64, s: nat): (r: u64)
    ensures r <= x
  {
    DivAtMost(x, Pow2(s));
    x / Pow2(s)
  }

  lemma DivAtMost(x: nat, p: nat)
    requires p >= 1
    ensures 0 <= x / p <= x
  {
    var q := x / p;
    assert x == q * p + x % p;
    MulMono(1, p, q);
  }

  lemma ShrIsHi(x: u64, s: nat)
    ensures Shr(x, s) == Hi(x, s)
  {
    HiLoDivMod(x, s);
  }

  function Clz64(x: u64): (r: int)
    ensures 0 <= r <= 64
  {
    Pow2At64();
    BitLengthAtMost(x, 64);
    64 - BitLength(x)
  }

  function ToI64(x: u64): i64 { if x < TWO63 then x else x - TWO64 }

  function ToU64(x: i64): u64 { if x < 0 then x + TWO64 else x }
}
