// Telling that all parts have arrived from the sum of their numbers, in 32-bit arithmetic.

module CompletenessTest {
  import opened Bits

  /** The sum of the numbers up to n that are in s. */
  ghost function SumUpTo(s: set<nat>, n: nat): nat {
    if n == 0 then 0 else SumUpTo(s, n - 1) + if n in s then n else 0
  }

  ghost function Full(n: nat): (s: set<nat>)
    ensures forall p :: p in s <==> 1 <= p <= n
  {
    if n == 0 then {} else Full(n - 1) + {n}
  }

  function Triangle(n: nat): nat {
    if n == 0 then 0 else Triangle(n - 1) + n
  }

  /** The test, with the product wrapping as an unsigned 32-bit one does. */
  predicate IsDataComplete(checksum: nat, nparts: nat) {
    checksum == (nparts * (nparts + 1)) % TWO32 / 2
  }

  lemma {:induction false} TriangleIs(n: nat)
    ensures 2 * Triangle(n) == n * (n + 1)
  {
    if n > 0 {
      TriangleIs(n - 1);
      assert n * (n + 1) == (n - 1) * n + 2 * n;
    }
  }

  lemma {:induction false} SumAtMost(s: set<nat>, n: nat)
    ensures SumUpTo(s, n) <= Triangle(n)
    ensures SumUpTo(s, n) == Triangle(n) <==> forall p :: 1 <= p <= n ==> p in s
  {
    if n > 0 {
      SumAtMost(s, n - 1);
    }
  }

  lemma FullIs(s: set<nat>, n: nat)
    requires forall p :: p in s ==> 1 <= p <= n
    ensures s == Full(n) <==> forall p :: 1 <= p <= n ==> p in s
  {
    if forall p :: 1 <= p <= n ==> p in s {
      assert forall p :: p in s <==> p in Full(n);
    }
  }

  lemma TriangleBound(n: nat)
    requires n <= 65535
    ensures n * (n + 1) < TWO32 && Triangle(n) < 0x8000_0000 && (n * (n + 1)) % TWO32 / 2 == Triangle(n)
  {
    TriangleIs(n);
    ProductAbove(65535, n);
    HalfOf(n * (n + 1), Triangle(n));
  }

  lemma HalfOf(x: nat, t: nat)
    requires x == 2 * t && x < TWO32
    ensures x % TWO32 / 2 == t
  {}

  /** Up to 65535 parts, different part numbers pass the test exactly when all of them are there. */
  lemma SumTest(s: set<nat>, n: nat)
    requires n <= 65535 && forall p :: p in s ==> 1 <= p <= n
    ensures SumUpTo(s, n) < 0x8000_0000
    ensures IsDataComplete(SumUpTo(s, n), n) <==> s == Full(n)
  {
    SumAtMost(s, n);
    TriangleBound(n);
    FullIs(s, n);
  }

  lemma {:induction false} SumOfMore(s: set<nat>, p: nat, n: nat)
    requires p !in s
    ensures SumUpTo(s + {p}, n) == SumUpTo(s, n) + if 1 <= p <= n then p else 0
  {
    if n > 0 {
      SumOfMore(s, p, n - 1);
    }
  }

  // ---------------------------------------------------------------------------------------------
  // Beyond 65535 the wrapped target is smaller than the full sum, and some of the parts reach it.

  // Every number up to 1 + ... + n is the sum of some of them.
  lemma {:induction false} SubsetWithSum(x: nat, n: nat) returns (s: set<nat>)
    requires x <= Triangle(n)
    ensures (forall p :: p in s ==> 1 <= p <= n) && SumUpTo(s, n) == x
  {
    if n == 0 {
      s := {};
    } else if x >= n {
      s := SubsetWithSum(x - n, n - 1);
      SumOfMore(s, n, n - 1);
      s := s + {n};
    } else {
      TriangleAtLeast(n - 1);
      s := SubsetWithSum(x, n - 1);
    }
  }

  lemma {:induction false} TriangleAtLeast(n: nat)
    ensures Triangle(n) >= n
  {
    if n > 0 {
      TriangleAtLeast(n - 1);
    }
  }

  lemma ProductAbove(n: nat, m: nat)
    requires n >= m
    ensures n * (n + 1) >= m * (m + 1)
  {
    assert n * (n + 1) >= m * (n + 1);
    assert m * (n + 1) >= m * (m + 1);
  }

  // The multiple of 2^32 that the test mistakes for zero is at least the third.
  lemma ThirdWrap(n: nat)
    requires n >= 65536 && (n * (n + 1)) % TWO32 / 2 == 0
    ensures n * (n + 1) > 2 * TWO32
  {
    if n <= 92681 {
      ProductAbove(n, 65536);
      ProductAbove(92681, n);
    } else {
      ProductAbove(n, 92682);
    }
  }

  /** From 65536 parts on, some nonempty set of part numbers that is not complete passes the test: the
      test is exact if and only if there are at most 65535 parts. */
  lemma SumTestExactly(n: nat)
    requires n >= 1
    ensures n <= 65535 <==>
            forall s: set<nat> :: s != {} && (forall p :: p in s ==> 1 <= p <= n) ==>
              (IsDataComplete(SumUpTo(s, n) % TWO32, n) <==> s == Full(n))
  {
    if n <= 65535 {
      forall s: set<nat> | s != {} && (forall p :: p in s ==> 1 <= p <= n)
        ensures IsDataComplete(SumUpTo(s, n) % TWO32, n) <==> s == Full(n)
      {
        SumTest(s, n);
      }
    } else {
      var s := FoolingSet(n);
      assert !(IsDataComplete(SumUpTo(s, n) % TWO32, n) <==> s == Full(n));
    }
  }

  lemma FoolingSet(n: nat) returns (s: set<nat>)
    requires n >= 65536
    ensures s != {} && (forall p :: p in s ==> 1 <= p <= n) && s != Full(n)
    ensures IsDataComplete(SumUpTo(s, n) % TWO32, n)
  {
    var target := (n * (n + 1)) % TWO32 / 2;
    TriangleIs(n);
    var x := if target == 0 then TWO32 else target;
    if target == 0 {
      ThirdWrap(n);
    } else {
      ProductAbove(n, 65536);
    }
    s := SubsetWithSum(x, n);
    SumAtMost(s, n);
    if s == {} { EmptySum(n); }
  }

  lemma {:induction false} EmptySum(n: nat)
    ensures SumUpTo({}, n) == 0
  {
    if n > 0 {
      EmptySum(n - 1);
    }
  }
}
