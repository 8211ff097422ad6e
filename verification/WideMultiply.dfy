// The high half of a 64x64 product, as the device computes it.

module WideMultiply {
  import opened Bits

  const LOW32: u64 := 0xffff_ffff

  lemma Halves(x: u64)
    ensures BitAnd(x, LOW32) == x % 0x1_0000_0000 && Shr(x, 32) == x / 0x1_0000_0000 < 0x1_0000_0000
  {
    Pow2At32();
    AndMask(x, 32);
    HiLoDivMod(x, 32);
  }

  lemma PartialProduct(a: nat, b: nat)
    requires a < 0x1_0000_0000 && b < 0x1_0000_0000
    ensures 0 <= a * b <= 0xffff_ffff * 0xffff_ffff
  {
    MulMono(a, 0xffff_ffff, b);
    MulMono2(b, 0xffff_ffff, 0xffff_ffff);
    MulMono(0, a, b);
  }

  // Schoolbook multiplication in base 2^32, with every partial product named.
  lemma Schoolbook(a: nat, b: nat, al: nat, ah: nat, bl: nat, bh: nat)
    requires a == ah * 0x1_0000_0000 + al && b == bh * 0x1_0000_0000 + bl
    ensures a * b == (ah * bh) * 0x1_0000_0000_0000_0000 + (al * bh + ah * bl) * 0x1_0000_0000 + al * bl
  {
    MulDist(ah * 0x1_0000_0000, al, b);
    MulDist(bh * 0x1_0000_0000, bl, ah);
    MulDist(bh * 0x1_0000_0000, bl, al);
    MulShuffle(ah, 0x1_0000_0000, b);
    MulShuffle(bh, 0x1_0000_0000, ah);
    MulShuffle(bh, 0x1_0000_0000, al);
    MulShuffle(1, b, al);
    MulShuffle(1, b, ah);
    MulShuffle(1, bh, ah);
    MulShuffle(1, bl, ah);
    MulShuffle(1, bh, al);
    MulShuffle(1, bl, al);
  }

  lemma CarryChain(p: nat, ll: nat, lh: nat, hl: nat, hh: nat)
    requires p == hh * 0x1_0000_0000_0000_0000 + (lh + hl) * 0x1_0000_0000 + ll
    ensures p / 0x1_0000_0000_0000_0000
         == hh + lh / 0x1_0000_0000 + hl / 0x1_0000_0000
            + (ll / 0x1_0000_0000 + lh % 0x1_0000_0000 + hl % 0x1_0000_0000) / 0x1_0000_0000
  {
    var mid := ll / 0x1_0000_0000 + lh % 0x1_0000_0000 + hl % 0x1_0000_0000;
    var q := hh + lh / 0x1_0000_0000 + hl / 0x1_0000_0000 + mid / 0x1_0000_0000;
    DivUnique(p, 0x1_0000_0000_0000_0000, q, mid % 0x1_0000_0000 * 0x1_0000_0000 + ll % 0x1_0000_0000);
  }

  lemma ProductBelow(a: u64, b: u64)
    ensures 0 <= a * b / 0x1_0000_0000_0000_0000 < 0x1_0000_0000_0000_0000
  {
    MulMono(0, a, b);
    MulMono(a, 0xffff_ffff_ffff_ffff, b);
    MulMono2(b, 0xffff_ffff_ffff_ffff, 0xffff_ffff_ffff_ffff);
  }

  /** The high half of a 64x64 product, from 32-bit partial products; no sum of them wraps. */
  function Mulhiu(a: u64, b: u64): (r: u64)
    ensures r == a * b / 0x1_0000_0000_0000_0000
  {
    Halves(a);
    Halves(b);
    var al, ah, bl, bh := BitAnd(a, LOW32), Shr(a, 32), BitAnd(b, LOW32), Shr(b, 32);
    PartialProduct(al, bl);
    PartialProduct(al, bh);
    PartialProduct(ah, bl);
    PartialProduct(ah, bh);
    var ll: u64, lh: u64, hl: u64, hh: u64 := al * bl, al * bh, ah * bl, ah * bh;
    Halves(ll);
    Halves(lh);
    Halves(hl);
    var mid: u64 := Shr(ll, 32) + BitAnd(lh, LOW32) + BitAnd(hl, LOW32);
    Halves(mid);
    Schoolbook(a, b, al, ah, bl, bh);
    CarryChain(a * b, ll, lh, hl, hh);
    ProductBelow(a, b);
    hh + Shr(lh, 32) + Shr(hl, 32) + Shr(mid, 32)
  }

  /** Multiplication of 64-bit words, low half. */
  function Mul64(x: u64, y: u64): u64 { (x * y) % 0x1_0000_0000_0000_0000 }

  /** Subtraction of 64-bit words. */
  function Sub64(x: u64, y: u64): u64 { (x - y) % 0x1_0000_0000_0000_0000 }

  /** The signed high half: the unsigned one, corrected modulo 2^64 for each negative operand. */
  function Mulhis(a: i64, b: i64): i64 {
    var h := Mulhiu(ToU64(a), ToU64(b));
    ToI64(Sub64(Sub64(h, if a < 0 then ToU64(b) else 0), if b < 0 then ToU64(a) else 0))
  }

  lemma MulhisFloor(a: i64, b: i64)
    ensures Mulhis(a, b) == a * b / 0x1_0000_0000_0000_0000
  {
    hide Mulhiu;
    ProductRange(a, b);
    UnsignedHigh(a, b);
    CorrectHigh(a, b, a * b / 0x1_0000_0000_0000_0000, Mulhiu(ToU64(a), ToU64(b)));
  }

  // The high half of the product of the two's complement representatives.
  lemma UnsignedHigh(a: i64, b: i64)
    ensures ToU64(a) * ToU64(b) / 0x1_0000_0000_0000_0000
         == a * b / 0x1_0000_0000_0000_0000 + (if a < 0 then b else 0) + (if b < 0 then a else 0)
            + (if a < 0 && b < 0 then 0x1_0000_0000_0000_0000 else 0)
  {
    var n := 0x1_0000_0000_0000_0000;
    var p: int := a * b;
    var sa, sb := if a < 0 then 1 else 0, if b < 0 then 1 else 0;
    ShiftedProduct(a, b, sa * n, sb * n);
    DivUnique(ToU64(a) * ToU64(b), n, p / n + sa * b + sb * a + sa * sb * n, p % n);
  }

  lemma ShiftedProduct(a: int, b: int, x: int, y: int)
    ensures (a + x) * (b + y) == a * b + x * b + y * a + x * y
  {
    MulDist(a, x, b + y);
    MulDist(b, y, a);
    MulDist(b, y, x);
    MulShuffle(1, a, b + y);
    MulShuffle(1, x, b + y);
    MulShuffle(1, a, b);
    MulShuffle(1, x, b);
    MulShuffle(1, x, y);
  }

  lemma CorrectHigh(a: i64, b: i64, q: i64, h: u64)
    requires h == q + (if a < 0 then b else 0) + (if b < 0 then a else 0)
                  + (if a < 0 && b < 0 then 0x1_0000_0000_0000_0000 else 0)
    ensures ToI64(Sub64(Sub64(h, if a < 0 then ToU64(b) else 0), if b < 0 then ToU64(a) else 0)) == q
  {}

  lemma ProductRange(a: i64, b: i64)
    ensures -0x8000_0000_0000_0000 <= a * b / 0x1_0000_0000_0000_0000 < 0x8000_0000_0000_0000
  {
    BoundedProduct(a, b, 0x8000_0000_0000_0000, 0x8000_0000_0000_0000);
    FloorRange(a * b);
  }

  lemma FloorRange(p: int)
    requires -0x4000_0000_0000_0000_0000_0000_0000_0000 <= p <= 0x4000_0000_0000_0000_0000_0000_0000_0000
    ensures -0x4000_0000_0000_0000 <= p / 0x1_0000_0000_0000_0000 <= 0x4000_0000_0000_0000
  {}
}
