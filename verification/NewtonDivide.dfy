// The reciprocal and the quotient of division: two Newton steps from a float seed, a first quotient
// within a few units, and an exact remainder that corrects it.

module NewtonDivide {
  import opened Bits
  import opened WideMultiply

  /** All that is asked of the float division: for every divisor d of 24 bits the result is within 2^-22,
      relatively, of 1/d. */
  ghost predicate GoodReciprocal(recip: u32 -> u32) {
    forall d: u32 | 0x80_0000 <= d < 0x100_0000 :: GoodSeed(recip(d), d)
  }

  /** The word rb stands for s * 2^(k - 150), with significand s and exponent field k. Times 2^150, its
      product with d differs from 1 by at most 2^-22. */
  ghost predicate GoodSeed(rb: u32, d: nat) {
    Pow2(150) - Pow2(128) <= SeedSignificand(rb) * d * Pow2(SeedField(rb)) <= Pow2(150) + Pow2(128)
  }

  function SeedSignificand(rb: u32): nat { BitOr(BitAnd(rb, 0x7f_ffff), 0x80_0000) }

  function SeedField(rb: u32): nat { BitAnd(Shr(rb, 23), 0xff) }

  /** The seed in units of 2^-48, for the three exponents it can have. */
  function SeedUnits(rb: u32): nat { SeedSignificand(rb) * FieldUnits(SeedField(rb)) }

  function FieldUnits(k: nat): nat { if k == 104 then 4 else if k == 103 then 2 else 1 }

  // The error of a reciprocal R of mb, in units of 2^-114: R * mb - 2^114.
  ghost predicate Within(R: int, mb: int, bound: int) {
    -bound <= R * mb - 0x4_0000_0000_0000_0000_0000_0000_0000 <= bound
  }

  // ---------------------------------------------------------------------------------------------
  // One Newton step.

  // f is the error as the device sees it, g the correction it applies.
  lemma NewtonError(R: int, b: int, f: int, g: int, bound: int, fmax: int, next: int)
    requires 0 < b < 0x20_0000_0000_0000
    requires var eps := R * b - 0x4_0000_0000_0000_0000_0000_0000_0000;
             -bound <= eps <= bound
             && f * 0x20_0000_0000_0000 <= eps < f * 0x20_0000_0000_0000 + 0x20_0000_0000_0000
    requires -fmax <= f <= fmax && 0 <= bound
    requires g * 0x2000_0000_0000_0000 <= -(f * R) < (g + 1) * 0x2000_0000_0000_0000
    requires fmax * bound <= 0x2000_0000_0000_0000 * (next - 0x20_0000_0000_0000) && next >= 0x20_0000_0000_0000
    ensures -next <= (R + g) * b - 0x4_0000_0000_0000_0000_0000_0000_0000 <= next
  {
    var eps: int := R * b - 0x4_0000_0000_0000_0000_0000_0000_0000;
    var G, F := g * b, f * eps;
    MulDist(R, g, b);
    ErrorProduct(f, eps, bound, fmax);
    assert f * (R * b) == f * 0x4_0000_0000_0000_0000_0000_0000_0000 + F by {
      MulDist3(f, 0x4_0000_0000_0000_0000_0000_0000_0000, eps);
    }
    MulShuffle(f, R, b);
    MulMono(g * 0x2000_0000_0000_0000, -(f * R), b);
    MulMono(-(f * R) + 1, (g + 1) * 0x2000_0000_0000_0000, b);
    ErrorTimes(g, b, f, R);
    NewtonLinear(eps, f, F, G, b, next, f * (R * b));
  }

  lemma MulDist3(a: int, x: int, y: int)
    ensures a * (x + y) == a * x + a * y
  {}

  lemma ErrorTimes(g: int, b: int, f: int, R: int)
    ensures g * 0x2000_0000_0000_0000 * b == 0x2000_0000_0000_0000 * (g * b)
    ensures (g + 1) * 0x2000_0000_0000_0000 * b == 0x2000_0000_0000_0000 * (g * b) + 0x2000_0000_0000_0000 * b
    ensures -(f * R) * b == -(f * (R * b))
    ensures (-(f * R) + 1) * b == -(f * (R * b)) + b
  {
    MulShuffle(g, 0x2000_0000_0000_0000, b);
    MulShuffle(g + 1, 0x2000_0000_0000_0000, b);
    MulSucc(g, b);
    MulAssoc(f, R, b);
    MulDist(-(f * R), 1, b);
  }

  // The product of the error and its rounded-down multiple is never negative.
  lemma ErrorProduct(f: int, eps: int, bound: int, fmax: int)
    requires -bound <= eps <= bound && f * 0x20_0000_0000_0000 <= eps < f * 0x20_0000_0000_0000 + 0x20_0000_0000_0000
             && -fmax <= f <= fmax
    ensures 0 <= f * eps <= fmax * bound
  {
    if f >= 0 {
      MulMono2(0, eps, f);
      MulMono2(eps, bound, f);
      MulMono(f, fmax, bound);
    } else {
      MulMono2(0, -eps, -f);
      MulMono2(-eps, bound, -f);
      MulMono(-f, fmax, bound);
      NegNeg(f, eps);
    }
  }

  lemma NegNeg(a: int, b: int)
    ensures -a * -b == a * b
  {}

  lemma NewtonLinear(eps: int, f: int, F: int, G: int, b: int, next: int, fRb: int)
    requires 0 < b < 0x20_0000_0000_0000 && fRb == f * 0x4_0000_0000_0000_0000_0000_0000_0000 + F && F >= 0
    requires f * 0x20_0000_0000_0000 <= eps < f * 0x20_0000_0000_0000 + 0x20_0000_0000_0000
    requires 0x2000_0000_0000_0000 * G <= -fRb && -fRb < 0x2000_0000_0000_0000 * G + 0x2000_0000_0000_0000 * b
    requires F <= 0x2000_0000_0000_0000 * (next - 0x20_0000_0000_0000)
    ensures -next <= eps + G <= next
  {}

  // The loop body on words: multiply high, subtract from 2^61, multiply high again.
  lemma NewtonStep(b: u64, Bn: u64, R: u64, bound: int, next: int)
    requires 0x10_0000_0000_0000 <= b < 0x20_0000_0000_0000 && Bn == b * 0x800 && Within(R, b, bound)
    requires StepBounds(bound, next)
    ensures 0 < R < 0x8000_0000_0000_0000
    ensures var E := 0x2000_0000_0000_0000 - Mulhiu(Bn, R);
            && -0x1000_0000_0000_0000 <= E * 8 < 0x1000_0000_0000_0000
            && 0 < R + Mulhis(R, E * 8) < 0x8000_0000_0000_0000
            && Within(R + Mulhis(R, E * 8), b, next)
  {
    hide *;
    SeenError(b, Bn, R, bound, next);
    CorrectedReciprocal(b, R, Mulhiu(Bn, R) - 0x2000_0000_0000_0000, bound, next);
  }

  predicate StepBounds(bound: int, next: int) {
    || (bound == 0x4000_0000_0000_0000_0000_0000 && next == 0x800_0000_0000_0000_0000)
    || (bound == 0x800_0000_0000_0000_0000 && next == 0x40_0000_0000_0000)
  }

  lemma StepBoundsElim(bound: int, next: int)
    requires StepBounds(bound, next)
    ensures (bound == 0x4000_0000_0000_0000_0000_0000 && next == 0x800_0000_0000_0000_0000)
            || (bound == 0x800_0000_0000_0000_0000 && next == 0x40_0000_0000_0000)
  {}

  lemma SeenError(b: u64, Bn: u64, R: u64, bound: int, next: int)
    requires 0x10_0000_0000_0000 <= b < 0x20_0000_0000_0000 && Bn == b * 0x800 && Within(R, b, bound)
    requires StepBounds(bound, next)
    ensures 0 < R < 0x8000_0000_0000_0000
    ensures -0x200_0000_0001 <= Mulhiu(Bn, R) - 0x2000_0000_0000_0000 <= 0x200_0000_0001
    ensures Mulhiu(Bn, R) - 0x2000_0000_0000_0000
            == (R * b - 0x4_0000_0000_0000_0000_0000_0000_0000) / 0x20_0000_0000_0000
  {
    var eps := WithinElim(R, b, bound);
    hide Mulhiu, Within;
    ReciprocalRange(R, b, bound);
    var h: int := Mulhiu(Bn, R);
    HighHalf(b, Bn, R, eps, h);
    FloorError(eps, -(0x2000_0000_0000_0000 - h), bound);
  }

  lemma CorrectedReciprocal(b: u64, R: u64, f: int, bound: int, next: int)
    requires 0x10_0000_0000_0000 <= b < 0x20_0000_0000_0000 && R < 0x8000_0000_0000_0000 && Within(R, b, bound)
    requires StepBounds(bound, next)
    requires -0x200_0000_0001 <= f <= 0x200_0000_0001
    requires f == (R * b - 0x4_0000_0000_0000_0000_0000_0000_0000) / 0x20_0000_0000_0000
    ensures 0 < R + Mulhis(R, -f * 8) < 0x8000_0000_0000_0000
    ensures Within(R + Mulhis(R, -f * 8), b, next)
  {
    var eps := WithinElim(R, b, bound);
    StepBoundsElim(bound, next);
    hide *;
    FloorError(eps, f, bound);
    NewtonCorrection(R, f);
    var g := Mulhis(R, -f * 8);
    if bound == 0x4000_0000_0000_0000_0000_0000 {
      NewtonError(R, b, f, g, 0x4000_0000_0000_0000_0000_0000, 0x200_0000_0001, 0x800_0000_0000_0000_0000);
    } else {
      NewtonError(R, b, f, g, 0x800_0000_0000_0000_0000, 0x40_0001, 0x40_0000_0000_0000);
    }
    WithinIntro(R + g, b, next);
    ReciprocalRange(R + g, b, next);
  }

  lemma WithinElim(R: int, b: int, bound: int) returns (eps: int)
    requires Within(R, b, bound)
    ensures eps == R * b - 0x4_0000_0000_0000_0000_0000_0000_0000 && -bound <= eps <= bound
  {
    eps := R * b - 0x4_0000_0000_0000_0000_0000_0000_0000;
  }

  lemma WithinIntro(R: int, b: int, bound: int)
    requires -bound <= R * b - 0x4_0000_0000_0000_0000_0000_0000_0000 <= bound
    ensures Within(R, b, bound)
  {}

  lemma ReciprocalRange(R: int, b: int, bound: int)
    requires 0x10_0000_0000_0000 <= b && 0 <= bound <= 0x4000_0000_0000_0000_0000_0000
    requires -bound <= R * b - 0x4_0000_0000_0000_0000_0000_0000_0000 <= bound
    ensures 0 < R < 0x8000_0000_0000_0000
  {
    if R <= 0 { MulMono(R, 0, b); }
    if R >= 0x8000_0000_0000_0000 {
      MulMono(0x8000_0000_0000_0000, R, b);
    }
  }

  lemma HighHalf(b: u64, Bn: u64, R: u64, eps: int, h: int)
    requires Bn == b * 0x800 && R * b == 0x4_0000_0000_0000_0000_0000_0000_0000 + eps
    requires h == Mulhiu(Bn, R)
    ensures h == 0x2000_0000_0000_0000 + eps / 0x20_0000_0000_0000
  {
    hide Mulhiu;
    assert Bn * R == R * b * 0x800 by { MulShuffle(b, 0x800, R); }
    ShiftDown(0x4_0000_0000_0000_0000_0000_0000_0000 + eps);
  }

  lemma ShiftDown(x: int)
    ensures x * 0x800 / 0x1_0000_0000_0000_0000 == x / 0x20_0000_0000_0000
  {}

  lemma FloorError(eps: int, f: int, bound: int)
    requires -bound <= eps <= bound && f == eps / 0x20_0000_0000_0000
    requires bound == 0x4000_0000_0000_0000_0000_0000 || bound == 0x800_0000_0000_0000_0000
    ensures f * 0x20_0000_0000_0000 <= eps < f * 0x20_0000_0000_0000 + 0x20_0000_0000_0000
    ensures bound == 0x4000_0000_0000_0000_0000_0000 ==> -0x200_0000_0001 <= f <= 0x200_0000_0001
    ensures bound == 0x800_0000_0000_0000_0000 ==> -0x40_0001 <= f <= 0x40_0001
  {}

  lemma NewtonCorrection(R: i64, f: int)
    requires -0x200_0000_0001 <= f <= 0x200_0000_0001
    ensures Mulhis(R, -f * 8) * 0x2000_0000_0000_0000 <= -(f * R) < (Mulhis(R, -f * 8) + 1) * 0x2000_0000_0000_0000
  {
    hide *;
    MulhisFloor(R, -f * 8);
    FloorCorrection(R, f, Mulhis(R, -f * 8));
  }

  lemma FloorCorrection(R: int, f: int, g: int)
    requires g == R * (-f * 8) / 0x1_0000_0000_0000_0000
    ensures g * 0x2000_0000_0000_0000 <= -(f * R) < (g + 1) * 0x2000_0000_0000_0000
  {
    assert R * (-f * 8) == -(f * R) * 8 by { TimesMinusEight(R, f); }
    EighthFloor(-(f * R), g);
  }

  lemma TimesMinusEight(R: int, f: int)
    ensures R * (-f * 8) == -(f * R) * 8
  {
    MulShuffle(R, -f, 8);
    MulAssoc(-f, R, 8);
  }

  lemma EighthFloor(x: int, g: int)
    requires g == x * 8 / 0x1_0000_0000_0000_0000
    ensures g * 0x2000_0000_0000_0000 <= x < (g + 1) * 0x2000_0000_0000_0000
  {}

  // ---------------------------------------------------------------------------------------------
  // The quotient from the reciprocal.

  // A first quotient q and its remainder rho, from a reciprocal within 2^54 of 2^114.
  lemma FirstQuotient(A: nat, b: nat, R: nat, q: nat)
    requires 0x10_0000_0000_0000 <= b < 0x20_0000_0000_0000 && b <= A < 2 * b && 0 < R
             && Within(R, b, 0x40_0000_0000_0000)
    requires q == A * 0x400 * (4 * R - 1) / 0x1_0000_0000_0000_0000
    ensures -0x200_0000_0000_0000 <= A * 0x4000_0000_0000_0000 - q * b <= 0x200_0000_0000_0000
    ensures q < 0x8000_0000_0000_0000
  {
    var eps := WithinElim(R, b, 0x40_0000_0000_0000);
    hide *;
    var x := A * (4 * R - 1);
    MulShuffle(A, 0x400, 4 * R - 1);
    QuotientFloor(x, q);
    MulMono(q * 0x40_0000_0000_0000, x, b);
    MulMono(x + 1, (q + 1) * 0x40_0000_0000_0000, b);
    var y := A * (4 * eps - b);
    DividendTimes(A, R, b, eps, x, y);
    ShiftedQuotient(q, b, x);
    DividendError(A, 4 * eps - b);
    RemainderBounds(A, b, q * b, x * b, y);
    QuotientRange(A, b, q);
  }

  lemma QuotientFloor(x: int, q: int)
    requires q == x * 0x400 / 0x1_0000_0000_0000_0000
    ensures q * 0x40_0000_0000_0000 <= x < (q + 1) * 0x40_0000_0000_0000
  {}

  lemma DividendTimes(A: int, R: int, b: int, eps: int, x: int, y: int)
    requires R * b == 0x4_0000_0000_0000_0000_0000_0000_0000 + eps && x == A * (4 * R - 1) && y == A * (4 * eps - b)
    ensures x * b == A * 0x10_0000_0000_0000_0000_0000_0000_0000 + y
  {
    MulAssoc(A, 4 * R - 1, b);
    MulDist(4 * R, -1, b);
    MulAssoc(4, R, b);
    assert (4 * R - 1) * b == 0x10_0000_0000_0000_0000_0000_0000_0000 + (4 * eps - b);
    MulDist3(A, 0x10_0000_0000_0000_0000_0000_0000_0000, 4 * eps - b);
  }

  lemma ShiftedQuotient(q: int, b: int, x: int)
    ensures q * 0x40_0000_0000_0000 * b == 0x40_0000_0000_0000 * (q * b)
    ensures (q + 1) * 0x40_0000_0000_0000 * b == 0x40_0000_0000_0000 * (q * b) + 0x40_0000_0000_0000 * b
    ensures (x + 1) * b == x * b + b
  {
    MulShuffle(q, 0x40_0000_0000_0000, b);
    MulShuffle(q + 1, 0x40_0000_0000_0000, b);
    MulSucc(q, b);
    MulSucc(x, b);
  }

  lemma DividendError(A: int, c: int)
    requires 0 <= A < 0x40_0000_0000_0000 && -0x120_0000_0000_0000 <= c <= 0x120_0000_0000_0000
    ensures -0x40_0000_0000_0000 * 0x120_0000_0000_0000 <= A * c <= 0x40_0000_0000_0000 * 0x120_0000_0000_0000
  {
    BoundedProduct(A, c, 0x40_0000_0000_0000, 0x120_0000_0000_0000);
  }

  lemma RemainderBounds(A: int, b: int, qb: int, xb: int, y: int)
    requires 0 < b < 0x20_0000_0000_0000 && xb == A * 0x10_0000_0000_0000_0000_0000_0000_0000 + y
    requires 0x40_0000_0000_0000 * qb <= xb && xb + b <= 0x40_0000_0000_0000 * qb + 0x40_0000_0000_0000 * b
    requires -0x40_0000_0000_0000 * 0x120_0000_0000_0000 <= y <= 0x40_0000_0000_0000 * 0x120_0000_0000_0000
    ensures -0x200_0000_0000_0000 <= A * 0x4000_0000_0000_0000 - qb <= 0x200_0000_0000_0000
  {}

  lemma QuotientRange(A: int, b: int, q: int)
    requires 0x10_0000_0000_0000 <= b && A < 2 * b
    requires -0x200_0000_0000_0000 <= A * 0x4000_0000_0000_0000 - q * b
    ensures q < 0x8000_0000_0000_0000
  {
    if q >= 0x8000_0000_0000_0000 {
      MulMono(0x8000_0000_0000_0000, q, b);
    }
  }

  // ---------------------------------------------------------------------------------------------
  // The correction: floor(rho * R / 2^114) quotient units bring the remainder into [0, b].

  lemma Correction(R: int, b: int, rho: int, adj: int)
    requires 0x10_0000_0000_0000 <= b < 0x20_0000_0000_0000 && Within(R, b, 0x40_0000_0000_0000)
    requires -0x200_0000_0000_0000 <= rho <= 0x200_0000_0000_0000
    requires adj == rho * R / 0x1_0000_0000_0000_0000 / 0x4_0000_0000_0000
    ensures 0 <= rho - adj * b <= b
  {
    var eps := WithinElim(R, b, 0x40_0000_0000_0000);
    hide *;
    var x := rho * R;
    FloorTwice(x, adj);
    MulMono(adj * 0x4_0000_0000_0000_0000_0000_0000_0000, x, b);
    MulMono(x + 1, (adj + 1) * 0x4_0000_0000_0000_0000_0000_0000_0000, b);
    BoundedProduct(rho, eps, 0x200_0000_0000_0000, 0x40_0000_0000_0000);
    CorrectedProducts(rho, R, b, eps, adj, x);
    CorrectedRange(rho, b, adj * b, x * b, rho * eps);
  }

  lemma FloorTwice(x: int, adj: int)
    requires adj == x / 0x1_0000_0000_0000_0000 / 0x4_0000_0000_0000
    ensures adj * 0x4_0000_0000_0000_0000_0000_0000_0000 <= x < (adj + 1) * 0x4_0000_0000_0000_0000_0000_0000_0000
  {}

  lemma CorrectedProducts(rho: int, R: int, b: int, eps: int, adj: int, x: int)
    requires R * b == 0x4_0000_0000_0000_0000_0000_0000_0000 + eps && x == rho * R
    ensures x * b == rho * 0x4_0000_0000_0000_0000_0000_0000_0000 + rho * eps
    ensures adj * 0x4_0000_0000_0000_0000_0000_0000_0000 * b == 0x4_0000_0000_0000_0000_0000_0000_0000 * (adj * b)
    ensures (adj + 1) * 0x4_0000_0000_0000_0000_0000_0000_0000 * b
         == 0x4_0000_0000_0000_0000_0000_0000_0000 * (adj * b) + 0x4_0000_0000_0000_0000_0000_0000_0000 * b
    ensures (x + 1) * b == x * b + b
  {
    MulAssoc(rho, R, b);
    MulDist3(rho, 0x4_0000_0000_0000_0000_0000_0000_0000, eps);
    MulShuffle(adj, 0x4_0000_0000_0000_0000_0000_0000_0000, b);
    MulShuffle(adj + 1, 0x4_0000_0000_0000_0000_0000_0000_0000, b);
    MulSucc(adj, b);
    MulSucc(x, b);
  }

  lemma CorrectedRange(rho: int, b: int, ab: int, xb: int, re: int)
    requires 0 < b && xb == rho * 0x4_0000_0000_0000_0000_0000_0000_0000 + re
    requires 0x4_0000_0000_0000_0000_0000_0000_0000 * ab <= xb
    requires xb + b <= 0x4_0000_0000_0000_0000_0000_0000_0000 * ab + 0x4_0000_0000_0000_0000_0000_0000_0000 * b
    requires -0x200_0000_0000_0000 * 0x40_0000_0000_0000 <= re <= 0x200_0000_0000_0000 * 0x40_0000_0000_0000
    ensures 0 <= rho - ab <= b
  {}

  // The bound the two predicated steps of the source are written for.
  lemma CorrectionWithin(R: int, b: int, rho: int, adj: int)
    requires 0x10_0000_0000_0000 <= b < 0x20_0000_0000_0000 && Within(R, b, 0x40_0000_0000_0000)
    requires -0x200_0000_0000_0000 <= rho <= 0x200_0000_0000_0000
    requires adj == rho * R / 0x1_0000_0000_0000_0000 / 0x4_0000_0000_0000
    ensures -b <= rho - adj * b <= b
  {
    hide *;
    Correction(R, b, rho, adj);
  }

  // The correction is a few units, so nothing it touches leaves a signed word.
  lemma CorrectionSmall(rho: int, b: int, adj: int)
    requires 0x10_0000_0000_0000 <= b < 0x20_0000_0000_0000
    requires -0x200_0000_0000_0000 <= rho <= 0x200_0000_0000_0000 && -b <= rho - adj * b <= b
    ensures -0x40 <= adj <= 0x40
  {
    if adj > 0x40 { MulMono(0x41, adj, b); }
    if adj < -0x40 { MulMono(adj, -0x41, b); }
  }

  // ---------------------------------------------------------------------------------------------
  // The seed.

  /** The relative error alone decides which exponents the seed may have. */
  lemma GoodSeedIff(rb: u32, d: nat)
    requires 0x80_0000 <= d < 0x100_0000
    ensures GoodSeed(rb, d) <==>
            102 <= SeedField(rb) <= 104 && -0x400_0000 <= SeedUnits(rb) * d - 0x1_0000_0000_0000 <= 0x400_0000
  {
    FractionOr(rb);
    SeedParts(rb);
    SeedDef(rb, d);
    UnitsDef(rb);
    hide *;
    var s, k := SeedSignificand(rb), SeedField(rb);
    MulMono(0x80_0000, s, d);
    MulMono(s, 0xff_ffff, d);
    PowersOfSeed();
    if k <= 101 {
      FieldTooSmall(s * d, k);
    } else if k >= 105 {
      FieldTooLarge(s * d, k);
    } else {
      FieldInRange(s * d, k);
      MulShuffle(s, FieldUnits(k), d);
    }
  }

  lemma SeedDef(rb: u32, d: nat)
    ensures GoodSeed(rb, d) <==>
            Pow2(150) - Pow2(128) <= SeedSignificand(rb) * d * Pow2(SeedField(rb)) <= Pow2(150) + Pow2(128)
  {}

  lemma UnitsDef(rb: u32)
    ensures SeedUnits(rb) == SeedSignificand(rb) * FieldUnits(SeedField(rb))
  {}

  // The powers that occur, in terms of the one at 102.
  lemma PowersOfSeed()
    ensures Pow2(150) == 0x1_0000_0000_0000 * Pow2(102) && Pow2(128) == 0x400_0000 * Pow2(102)
    ensures 2 * Pow2(101) == Pow2(102) && Pow2(103) == 2 * Pow2(102)
    ensures Pow2(104) == 4 * Pow2(102) && Pow2(105) == 8 * Pow2(102)
  {
    hide Pow2;
    Pow2Add(48, 102);
    Pow2Add(26, 102);
    Pow2Tens(2);
    Pow2Tens(4);
    Pow2Up(20, 5);
    Pow2Up(25, 1);
    Pow2Up(40, 5);
    Pow2Up(45, 3);
    Pow2Up(101, 1);
    Pow2Up(102, 3);
    Pow2Up(102, 2);
    Pow2Up(102, 1);
  }

  lemma FieldTooSmall(x: nat, k: nat)
    requires k <= 101 && x < 0x1_0000_0000_0000 && 2 * Pow2(101) == Pow2(102)
    ensures x * Pow2(k) < 0x1_0000_0000_0000 * Pow2(102) - 0x400_0000 * Pow2(102)
  {
    hide Pow2;
    Pow2Monotone(k, 101);
    MulMono2(Pow2(k), Pow2(101), x);
    MulMono(x, 0x1_0000_0000_0000, Pow2(101));
  }

  lemma FieldTooLarge(x: nat, k: nat)
    requires k >= 105 && x >= 0x4000_0000_0000 && Pow2(105) == 8 * Pow2(102)
    ensures x * Pow2(k) > 0x1_0000_0000_0000 * Pow2(102) + 0x400_0000 * Pow2(102)
  {
    hide Pow2;
    Pow2Monotone(105, k);
    MulMono2(Pow2(105), Pow2(k), x);
    MulMono(0x4000_0000_0000, x, Pow2(105));
  }

  lemma FieldInRange(x: nat, k: nat)
    requires 102 <= k <= 104 && Pow2(103) == 2 * Pow2(102) && Pow2(104) == 4 * Pow2(102)
    ensures 0x1_0000_0000_0000 * Pow2(102) - 0x400_0000 * Pow2(102) <= x * Pow2(k)
            <= 0x1_0000_0000_0000 * Pow2(102) + 0x400_0000 * Pow2(102)
       <==> -0x400_0000 <= x * FieldUnits(k) - 0x1_0000_0000_0000 <= 0x400_0000
  {
    var u, p := x * FieldUnits(k), Pow2(102);
    MulAssoc(x, FieldUnits(k), p);
    assert Pow2(k) == FieldUnits(k) * p;
    hide Pow2, FieldUnits;
    MulOrder(u, 0x1_0000_0000_0000 - 0x400_0000, p);
    MulOrder(0x1_0000_0000_0000 + 0x400_0000, u, p);
  }

  // units counts 2^-48; shifted into place it is a reciprocal of 2^114.
  lemma SeedWithin(d: nat, l: nat, b: nat, units: nat)
    requires 0x80_0000 <= d < 0x100_0000 && l < 0x2000_0000 && b == d * 0x2000_0000 + l
    requires -0x400_0000 <= units * d - 0x1_0000_0000_0000 <= 0x400_0000
    ensures 0 < units < 0x400_0000
    ensures Within(units * 0x20_0000_0000, b, 0x4000_0000_0000_0000_0000_0000)
  {
    if units >= 0x400_0000 { MulMono(0x400_0000, units, d); }
    BoundedProduct(units, l, 0x400_0000, 0x2000_0000);
    MulMono2(0, l, units);
    SeedProduct(units, d, l, b);
  }

  lemma SeedProduct(units: nat, d: nat, l: nat, b: nat)
    requires b == d * 0x2000_0000 + l
    ensures units * 0x20_0000_0000 * b == 0x20_0000_0000 * (0x2000_0000 * (units * d) + units * l)
  {
    MulDist3(units, d * 0x2000_0000, l);
    MulAssoc(units, d, 0x2000_0000);
    MulShuffle(units, 0x20_0000_0000, b);
  }

  lemma SeedWord(rb: u32)
    requires 102 <= SeedField(rb) <= 104
    ensures 0x80_0000 <= SeedSignificand(rb) < 0x100_0000
    ensures Shl64(SeedSignificand(rb), SeedField(rb) - 127 + 62) == SeedUnits(rb) * 0x20_0000_0000
  {
    FractionOr(rb);
    SeedShift(SeedSignificand(rb), SeedField(rb));
  }

  lemma SeedShift(s: nat, k: nat)
    requires s < 0x100_0000 && 102 <= k <= 104
    ensures Shl64(s, k - 127 + 62) == s * FieldUnits(k) * 0x20_0000_0000
  {
    hide *;
    hide Pow2;
    Pow2Tens(3);
    Pow2Up(30, 5);
    Pow2Up(35, 2);
    Pow2Up(37, 1);
    Pow2Up(37, 2);
    Shl64Is(s, k - 127 + 62);
    FieldUnitsIs(k);
  }

  lemma FieldUnitsIs(k: nat)
    ensures FieldUnits(k) == if k == 104 then 4 else if k == 103 then 2 else 1
  {}

  lemma Shl64Is(x: u64, s: nat)
    requires s < 64
    ensures Shl64(x, s) == x * Pow2(s) % 0x1_0000_0000_0000_0000
  {}

  lemma FractionOr(rb: u32)
    ensures 0x80_0000 <= BitOr(BitAnd(rb, 0x7f_ffff), 0x80_0000) < 0x100_0000
  {
    hide *;
    Pow2At23();
    AndMask(rb, 23);
    HiLo(rb, 23);
    HiLoUnique(Lo(rb, 23), 23, 0, Lo(rb, 23));
    SingleBit(Lo(rb, 23), 23);
  }

  // ---------------------------------------------------------------------------------------------
  // The whole division of significands.

  // The remainder fits a signed word, so the wrapping difference of wrapping products is exact.
  lemma WrappedRemainder(A: u64, q: u64, b: u64)
    requires -0x200_0000_0000_0000 <= A * 0x4000_0000_0000_0000 - q * b <= 0x200_0000_0000_0000
    ensures ToI64(Sub64(Shl64(A, 62), Mul64(q, b))) == A * 0x4000_0000_0000_0000 - q * b
  {
    Pow2At62();
    WrapDifference(A * 0x4000_0000_0000_0000, q * b);
  }

  lemma WrapDifference(x: int, y: int)
    requires -0x200_0000_0000_0000 <= x - y <= 0x200_0000_0000_0000
    ensures ToI64((x % 0x1_0000_0000_0000_0000 - y % 0x1_0000_0000_0000_0000) % 0x1_0000_0000_0000_0000) == x - y
  {}

  // Clamping an estimate of 2^114/b that exceeds 2^62 brings it no further away.
  lemma Clamped(R: int, b: int)
    requires 0x10_0000_0000_0000 <= b && Within(R, b, 0x40_0000_0000_0000)
    ensures Within(if R > 0x4000_0000_0000_0000 then 0x4000_0000_0000_0000 else R, b, 0x40_0000_0000_0000)
  {
    if R > 0x4000_0000_0000_0000 {
      MulMono(0x4000_0000_0000_0000, R, b);
    }
  }

  lemma QuotientBounds(A: int, b: int, q: int, r: int)
    requires 0 < b <= A < 2 * b && A * 0x4000_0000_0000_0000 == q * b + r && 0 <= r < b
    ensures 0x4000_0000_0000_0000 <= q < 0x8000_0000_0000_0000
  {
    if q < 0x4000_0000_0000_0000 { MulMono(q + 1, 0x4000_0000_0000_0000, b); MulSucc(q, b); }
    if q >= 0x8000_0000_0000_0000 { MulMono(0x8000_0000_0000_0000, q, b); }
  }

  lemma SeedOf(recip: u32 -> u32, b: u64)
    requires GoodReciprocal(recip) && 0x10_0000_0000_0000 <= b < 0x20_0000_0000_0000
    ensures Shr(b, 29) < 0x1_0000_0000
    ensures 102 <= SeedField(recip(Shr(b, 29))) <= 104
    ensures 0 < SeedUnits(recip(Shr(b, 29))) < 0x400_0000
    ensures Within(SeedUnits(recip(Shr(b, 29))) * 0x20_0000_0000, b, 0x4000_0000_0000_0000_0000_0000)
  {
    hide BitAnd, SeedUnits, SeedField, Within, GoodSeed;
    Pow2At29();
    var d: u32 := Shr(b, 29);
    var rb := recip(d);
    GoodSeedIff(rb, d);
    SeedWithin(d, b % 0x2000_0000, b, SeedUnits(rb));
  }

  // The seed as the source assembles it from the bits of the float.
  method Seed(b: u64, recip: u32 -> u32) returns (R: u64)
    requires GoodReciprocal(recip) && 0x10_0000_0000_0000 <= b < 0x20_0000_0000_0000
    ensures Within(R, b, 0x4000_0000_0000_0000_0000_0000)
  {
    SeedOf(recip, b);
    hide *;
    var d: u32 := Shr(b, 29);
    var rb := recip(d);
    SeedWord(rb);
    SeedParts(rb);
    R := Shl64(BitOr(BitAnd(rb, 0x7f_ffff), 0x80_0000), BitAnd(Shr(rb, 23), 0xff) - 127 + 62);
  }

  lemma SeedParts(rb: u32)
    ensures SeedSignificand(rb) == BitOr(BitAnd(rb, 0x7f_ffff), 0x80_0000) && SeedField(rb) == BitAnd(Shr(rb, 23), 0xff)
  {}

  ghost function NewtonBound(it: nat): int {
    if it == 0 then 0x4000_0000_0000_0000_0000_0000 else if it == 1 then 0x800_0000_0000_0000_0000
    else 0x40_0000_0000_0000
  }

  lemma NewtonIteration(b: u64, Bn: u64, R: u64, it: nat)
    requires 0x10_0000_0000_0000 <= b < 0x20_0000_0000_0000 && Bn == b * 0x800 && it < 2
             && Within(R, b, NewtonBound(it))
    ensures 0 < R < 0x8000_0000_0000_0000
    ensures var E := 0x2000_0000_0000_0000 - Mulhiu(Bn, R);
            && -0x1000_0000_0000_0000 <= E * 8 < 0x1000_0000_0000_0000
            && 0 < R + Mulhis(R, E * 8) < 0x8000_0000_0000_0000
            && Within(R + Mulhis(R, E * 8), b, NewtonBound(it + 1))
  {
    hide Mulhis, Mulhiu, Within;
    NewtonStep(b, Bn, R, NewtonBound(it), NewtonBound(it + 1));
  }

  lemma ScaledDivisor(b: u64)
    requires b < 0x20_0000_0000_0000
    ensures Shl64(b, 11) == b * 0x800
  {
    Pow2Small();
  }

  lemma ClampedRange(R: u64, b: u64)
    requires 0x10_0000_0000_0000 <= b && Within(R, b, 0x40_0000_0000_0000)
    ensures var S := if R > 0x4000_0000_0000_0000 then 0x4000_0000_0000_0000 else R;
            0 < S <= 0x4000_0000_0000_0000 && Within(S, b, 0x40_0000_0000_0000)
  {
    Clamped(R, b);
    ReciprocalRange(R, b, 0x40_0000_0000_0000);
  }

  // The body of the loop.
  method Improved(b: u64, Bn: u64, R0: u64, ghost it: nat) returns (R: u64)
    requires 0x10_0000_0000_0000 <= b < 0x20_0000_0000_0000 && Bn == b * 0x800 && it < 2
             && Within(R0, b, NewtonBound(it))
    ensures Within(R, b, NewtonBound(it + 1))
  {
    hide *;
    NewtonIteration(b, Bn, R0, it);
    var E: i64 := 0x2000_0000_0000_0000 - Mulhiu(Bn, R0);
    R := R0 + Mulhis(R0, E * 8);
  }

  /** The reciprocal of the divisor, to 60 bits, from a float seed and two Newton steps. */
  method Reciprocal(b: u64, recip: u32 -> u32) returns (R: u64)
    requires GoodReciprocal(recip) && 0x10_0000_0000_0000 <= b < 0x20_0000_0000_0000
    ensures 0 < R <= 0x4000_0000_0000_0000 && Within(R, b, 0x40_0000_0000_0000)
  {
    R := Seed(b, recip);
    var Bn := Shl64(b, 11);
    ScaledDivisor(b);
    hide BitAnd, BitOr, Shl64, Shr, SeedUnits, Within, Mulhis, Mulhiu, GoodReciprocal;
    for it := 0 to 2
      invariant Within(R, b, NewtonBound(it))
    {
      R := Improved(b, Bn, R, it);
    }
    ClampedRange(R, b);
    R := if R > 0x4000_0000_0000_0000 then 0x4000_0000_0000_0000 else R;
  }

  lemma ReciprocalWord(R: u64)
    requires 0 < R <= 0x4000_0000_0000_0000
    ensures Sub64(Shl64(R, 2), 1) == 4 * R - 1
  {
    Pow2Up(0, 2);
    Pow2Small();
  }

  lemma FirstQuotientWord(A: u64, R: u64)
    requires A < 0x40_0000_0000_0000 && 0 < R <= 0x4000_0000_0000_0000
    ensures Mulhiu(Shl64(A, 10), Sub64(Shl64(R, 2), 1)) == A * 0x400 * (4 * R - 1) / 0x1_0000_0000_0000_0000
  {
    hide *;
    ReciprocalWord(R);
    Pow2Small();
    Shl64Is(A, 10);
    MulhiuIs(Shl64(A, 10), Sub64(Shl64(R, 2), 1));
  }

  lemma MulhiuIs(x: u64, y: u64)
    ensures Mulhiu(x, y) == x * y / 0x1_0000_0000_0000_0000
  {}

  lemma AdjustmentIs(rem: i64, R: u64)
    requires R <= 0x4000_0000_0000_0000
    ensures Mulhis(rem, R) / 0x4_0000_0000_0000 == rem * R / 0x1_0000_0000_0000_0000 / 0x4_0000_0000_0000
  {
    hide *;
    MulhisFloor(rem, R);
  }

  /** Quotient and remainder of A * 2^62 by b, for b <= A < 2b: exact, with no 64-bit wrap losing
      information, from any reciprocal seed within 2^-22. */
  method DivideSignificands(A: u64, b: u64, recip: u32 -> u32) returns (Q: u64, rem: i64)
    requires GoodReciprocal(recip) && 0x10_0000_0000_0000 <= b < 0x20_0000_0000_0000 && b <= A < 2 * b
    ensures A * 0x4000_0000_0000_0000 == Q * b + rem && 0 <= rem < b
    ensures 0x4000_0000_0000_0000 <= Q < 0x8000_0000_0000_0000
  {
    hide *;
    var R := Reciprocal(b, recip);
    Q := Mulhiu(Shl64(A, 10), Sub64(Shl64(R, 2), 1));
    FirstQuotientWord(A, R);
    FirstQuotient(A, b, R, Q);
    WrappedRemainder(A, Q, b);
    rem := ToI64(Sub64(Shl64(A, 62), Mul64(Q, b)));
    AdjustmentIs(rem, R);
    var adj := Mulhis(rem, R) / 0x4_0000_0000_0000;
    CorrectionWithin(R, b, rem, adj);
    CorrectionSmall(rem, b, adj);
    MulDist(Q, adj, b);
    QuotientPositive(A, b, Q + adj, rem - adj * b);
    Q := Q + adj;
    rem := rem - adj * b;
    var ng := rem < 0;
    Q := if ng then Q - 1 else Q;
    rem := if ng then rem + b else rem;
    var bg := rem >= b;
    MulSucc(Q, b);
    Q := if bg then Q + 1 else Q;
    rem := if bg then rem - b else rem;
    QuotientBounds(A, b, Q, rem);
  }

  lemma QuotientPositive(A: int, b: int, q: int, r: int)
    requires 0 < b <= A && A * 0x4000_0000_0000_0000 == q * b + r && -b <= r <= b
    ensures q > 0
  {
    if q <= 0 { MulMono(q, 0, b); }
  }

  // ---------------------------------------------------------------------------------------------
  // The hypothesis on the seed leaves room: even the float below the quotient chopped to 24 bits meets it.
  // For the greatest divisor that float has the exponent field 102.

  function Chopped(d: u32): u32 {
    if d <= 0x80_0000 || d >= 0x100_0000 then 104 * 0x80_0000
    else ChoppedRange(d); 102 * 0x80_0000 + 0x8000_0000_0000 / d
  }

  function BelowChopped(d: u32): u32 { Chopped(d) - 1 }

  lemma ChoppedRange(d: nat)
    requires 0x80_0000 < d < 0x100_0000
    ensures 0x80_0000 <= 0x8000_0000_0000 / d < 0x100_0000
    ensures 0 <= 0x8000_0000_0000 - 0x8000_0000_0000 / d * d < 0x100_0000
  {
    var q := 0x8000_0000_0000 / d;
    assert q * d + 0x8000_0000_0000 % d == 0x8000_0000_0000;
    if q < 0x80_0000 { MulMono(q + 1, 0x80_0000, d); MulSucc(q, d); }
    if q >= 0x100_0000 { MulMono(0x100_0000, q, d); }
  }

  lemma WordOfSeed(w: u32, k: nat, l: nat)
    requires 102 <= k <= 104 && l < 0x80_0000 && w == k * 0x80_0000 + l
    ensures SeedField(w) == k && SeedUnits(w) == (0x80_0000 + l) * FieldUnits(k)
  {
    SeedParts(w);
    UnitsDef(w);
    hide *;
    Pow2At23();
    HiLoUnique(w, 23, k, l);
    HiLoUnique(l, 23, 0, l);
    ShrIsHi(w, 23);
    AndMask(w, 23);
    SingleBit(l, 23);
    SmallField(k);
  }

  lemma SmallField(e: nat)
    requires e < 0x100
    ensures BitAnd(e, 0xff) == e
  {
    hide *;
    Pow2Up(5, 3);
    Pow2Up(0, 5);
    Pow2Small();
    HiLoUnique(e, 8, 0, e);
    AndMask(e, 8);
  }

  lemma ChoppedIsGood(d: u32)
    requires 0x80_0000 <= d < 0x100_0000
    ensures GoodSeed(Chopped(d), d) && GoodSeed(BelowChopped(d), d)
  {
    hide GoodSeed;
    if d == 0x80_0000 {
      GoodWord(Chopped(d), d, 104, 0);
      GoodWord(BelowChopped(d), d, 103, 0x7f_ffff);
    } else {
      ChoppedRange(d);
      var q := 0x8000_0000_0000 / d;
      GoodWord(Chopped(d), d, 103, q - 0x80_0000);
      if q == 0x80_0000 {
        GoodWord(BelowChopped(d), d, 102, 0x7f_ffff);
      } else {
        MulSucc(q - 1, d);
        GoodWord(BelowChopped(d), d, 103, q - 0x80_0001);
      }
    }
  }

  lemma GoodWord(w: u32, d: nat, k: nat, l: nat)
    requires 0x80_0000 <= d < 0x100_0000 && 102 <= k <= 104 && l < 0x80_0000 && w == k * 0x80_0000 + l
    requires -0x400_0000 <= FieldUnits(k) * ((0x80_0000 + l) * d) - 0x1_0000_0000_0000 <= 0x400_0000
    ensures GoodSeed(w, d)
  {
    hide *;
    WordOfSeed(w, k, l);
    GoodSeedIff(w, d);
    MulShuffle(0x80_0000 + l, FieldUnits(k), d);
  }

  /** Seeds meet the hypothesis whichever of the two each of them is, and for the greatest divisor the
      lower one has the exponent field 102. */
  lemma RoundedIsGood(recip: u32 -> u32)
    requires forall d: u32 :: 0x80_0000 <= d < 0x100_0000 ==> recip(d) == Chopped(d) || recip(d) == BelowChopped(d)
    ensures GoodReciprocal(recip)
    ensures SeedField(BelowChopped(0xff_ffff)) == 102
  {
    WordOfSeed(BelowChopped(0xff_ffff), 102, 0x7f_ffff);
    hide *;
    RoundedSeeds(recip);
  }

  lemma RoundedSeeds(recip: u32 -> u32)
    requires forall d: u32 :: 0x80_0000 <= d < 0x100_0000 ==> recip(d) == Chopped(d) || recip(d) == BelowChopped(d)
    ensures GoodReciprocal(recip)
  {
    hide GoodSeed, Chopped, BelowChopped;
    forall d: u32 | 0x80_0000 <= d < 0x100_0000
      ensures GoodSeed(recip(d), d)
    {
      ChoppedIsGood(d);
    }
  }
}
