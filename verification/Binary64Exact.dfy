// Bit-exactness: the operands determine every bit of the result, so any two implementations that meet
// the specifications agree.

module Binary64Exact {
  import opened Bits
  import opened Ieee754
  import opened Binary64Word
  import opened Binary64AddSub
  import opened Binary64Mul
  import opened Binary64Div

  // A word is its sign and its magnitude.
  lemma SameWord(r: u64, s: u64)
    requires Abs(r) == Abs(s) && (r >= SIGN <==> s >= SIGN)
    ensures r == s
  {}

  lemma SumDetermined(a: u64, b: u64, neg: bool, r: u64, s: u64)
    requires IsSum(a, b, neg, r) && IsSum(a, b, neg, s)
    ensures r == s
  {
    hide Rounds64, Mag64;
    var c := if neg then Negated(b) else b;
    if IsFinite(a) && IsFinite(c) {
      RoundedSumDetermined(a, c, r, s);
    }
  }

  lemma RoundedSumDetermined(a: u64, b: u64, r: u64, s: u64)
    requires IsRoundedSum(a, b, r) && IsRoundedSum(a, b, s)
    ensures r == s
  {
    hide Rounds64, Value, Pow2, Mag;
    if Value(a) + Value(b) != 0 {
      UniqueRounding(Magnitude(Value(a) + Value(b)), 1, Abs(r), Abs(s));
    }
    SameWord(r, s);
  }

  lemma ProductDetermined(a: u64, b: u64, r: u64, s: u64)
    requires IsProduct(a, b, r) && IsProduct(a, b, s)
    ensures r == s
  {
    hide Rounds64, Mag64, ExactProduct, Pow2;
    if !IsNaN(a) && !IsNaN(b) && !IsInf(a) && !IsInf(b) {
      UniqueRounding(ExactProduct(a, b), Pow2(1074), Abs(r), Abs(s));
    }
  }

  lemma QuotientDetermined(a: u64, b: u64, r: u64, s: u64)
    requires IsQuotient(a, b, r) && IsQuotient(a, b, s)
    ensures r == s
  {
    hide Rounds64, Mag64, ExactDividend, Pow2;
    if !IsNaN(a) && !IsNaN(b) && !IsInf(a) && !IsInf(b) && Abs(b) != 0 {
      PositiveMagnitude(b);
      UniqueRounding(ExactDividend(a), Mag64(b), Abs(r), Abs(s));
    }
  }
}
