// The warp all-reduces: log2(Width) exchanges with the lane whose number differs in one bit.

module Butterfly {
  import opened Bits

  ghost predicate Commutative<T(!new)>(op: (T, T) -> T) { forall x, y :: op(x, y) == op(y, x) }

  ghost predicate Associative<T(!new)>(op: (T, T) -> T) { forall x, y, z :: op(op(x, y), z) == op(x, op(y, z)) }

  /** The reduction of the values of count lanes, from lane start on in steps of stride, each taken once. */
  function Reduce<T>(v: nat -> T, start: nat, stride: nat, count: nat, op: (T, T) -> T): T
    requires count >= 1
    decreases count
  {
    if count == 1 then v(start) else op(v(start), Reduce(v, start + stride, stride, count - 1, op))
  }

  /** The lane that warp_shuffle_xor reads. */
  function Peer(lane: nat, m: nat): nat { BitXor(lane, m) }

  // Flipping one bit moves by that bit's weight, up or down.
  lemma PeerOfPower(lane: nat, k: nat)
    ensures Peer(lane, Pow2(k)) == if Hi(lane, k) % 2 == 0 then lane + Pow2(k) else lane - Pow2(k)
    ensures Hi(lane, k) % 2 == 1 ==> lane >= Pow2(k)
  {
    var p, h, l := Pow2(k), Hi(lane, k), Lo(lane, k);
    HiLo(lane, k);
    HiLoUnique(p, k, 1, 0);
    XorHi(lane, p, k);
    XorLo(lane, p, k);
    HiLo(BitXor(lane, p), k);
    SmallBits(h);
    SmallBits(l);
    XorOne(h);
    if h % 2 == 0 { MulSucc(h, p); } else { MulSucc(h - 1, p); MulMono(1, h, p); }
  }

  lemma XorOne(h: nat)
    ensures BitXor(h, 1) == if h % 2 == 0 then h + 1 else h - 1
  {
    XorLast(h / 2, h % 2, 0, 1);
    SmallBits(h / 2);
  }

  // What a lane and its peer have in common.
  lemma PeerFields(lane: nat, k: nat, w: nat)
    requires k < w
    ensures var p := Peer(lane, Pow2(k));
            && Hi(p, w) == Hi(lane, w) && Lo(p, k) == Lo(lane, k)
            && Hi(p, k) % 2 == 1 - Hi(lane, k) % 2
  {
    var q := Pow2(k);
    HiLoUnique(q, k, 1, 0);
    Pow2Monotone(k, w);
    HiLoUnique(q, w, 0, q);
    XorHi(lane, q, w);
    XorHi(lane, q, k);
    XorLo(lane, q, k);
    SmallBits(Hi(lane, w));
    SmallBits(Lo(lane, k));
    XorOne(Hi(lane, k));
  }

  // The even and the odd places, reduced apart and then together.
  lemma {:induction false} Interleave<T(!new)>(v: nat -> T, s: nat, d: nat, c: nat, op: (T, T) -> T)
    requires Commutative(op) && Associative(op) && c >= 1
    ensures op(Reduce(v, s, 2 * d, c, op), Reduce(v, s + d, 2 * d, c, op)) == Reduce(v, s, d, 2 * c, op)
    decreases c
  {
    hide Commutative, Associative;
    if c == 1 {
      assert Reduce(v, s, d, 2, op) == op(v(s), Reduce(v, s + d, d, 1, op));
    } else {
      Interleave(v, s + 2 * d, d, c - 1, op);
      var even, odd := Reduce(v, s + 2 * d, 2 * d, c - 1, op), Reduce(v, s + d + 2 * d, 2 * d, c - 1, op);
      assert Reduce(v, s, d, 2 * c, op) == op(v(s), Reduce(v, s + d, d, 2 * c - 1, op));
      assert Reduce(v, s + d, d, 2 * c - 1, op) == op(v(s + d), Reduce(v, s + d + d, d, 2 * c - 2, op));
      FourWay(op, v(s), even, v(s + d), odd);
    }
  }

  lemma FourWay<T(!new)>(op: (T, T) -> T, a: T, b: T, x: T, y: T)
    requires Commutative(op) && Associative(op)
    ensures op(op(a, b), op(x, y)) == op(a, op(x, op(b, y)))
  {
    assert op(op(a, b), op(x, y)) == op(a, op(b, op(x, y)));
    assert op(b, op(x, y)) == op(op(b, x), y) == op(op(x, b), y) == op(x, op(b, y));
  }

  /** The first lane of the group of 2^w that a lane belongs to. */
  function GroupStart(lane: nat, w: nat): nat {
    var q := Hi(lane, w);
    MulMono(0, q, Pow2(w));
    q * Pow2(w)
  }

  lemma GroupStartIs(lane: nat, w: nat)
    ensures GroupStart(lane, w) <= lane < GroupStart(lane, w) + Pow2(w)
    ensures GroupStart(lane, w) % Pow2(w) == 0
  {
    hide Pow2, Hi, Lo;
    HiLo(lane, w);
    DivUnique(GroupStart(lane, w), Pow2(w), Hi(lane, w), 0);
  }

  /** What a lane of a group of 2^w holds once the masks down to 2^k have been used: the values of the
      lanes of its group that agree with it in the k lowest bits. */
  function Partial<T>(v: nat -> T, lane: nat, w: nat, k: nat, op: (T, T) -> T): T
    requires k <= w
  {
    Reduce(v, GroupStart(lane, w) + Lo(lane, k), Pow2(k), Pow2(w - k), op)
  }

  lemma PartialIs<T>(v: nat -> T, lane: nat, w: nat, k: nat, op: (T, T) -> T)
    requires k <= w
    ensures Partial(v, lane, w, k, op) == Reduce(v, GroupStart(lane, w) + Lo(lane, k), Pow2(k), Pow2(w - k), op)
  {}

  lemma SameGroup(x: nat, y: nat, w: nat)
    requires Hi(x, w) == Hi(y, w)
    ensures GroupStart(x, w) == GroupStart(y, w)
  {}

  /** One exchange halves the stride and doubles the number of values. */
  lemma PartialStep<T(!new)>(v: nat -> T, lane: nat, w: nat, k: nat, op: (T, T) -> T)
    requires Commutative(op) && Associative(op) && k < w
    ensures op(Partial(v, lane, w, k + 1, op), Partial(v, Peer(lane, Pow2(k)), w, k + 1, op))
            == Partial(v, lane, w, k, op)
  {
    hide *;
    var p := Peer(lane, Pow2(k));
    PeerFields(lane, k, w);
    SameGroup(lane, p, w);
    HiLoNext(lane, k);
    HiLoNext(p, k);
    Pow2Up(w - k - 1, 1);
    Pow2Up(k, 1);
    var s, d, c := GroupStart(lane, w) + Lo(lane, k), Pow2(k), Pow2(w - k - 1);
    Interleave(v, s, d, c, op);
    PartialIs(v, lane, w, k, op);
    PartialIs(v, lane, w, k + 1, op);
    PartialIs(v, p, w, k + 1, op);
    EitherOrder(op, Partial(v, lane, w, k + 1, op), Partial(v, p, w, k + 1, op));
    NextLow(Hi(lane, k) % 2, d);
    NextLow(Hi(p, k) % 2, d);
  }

  lemma NextLow(bit: nat, d: nat)
    requires bit <= 1
    ensures bit * d == if bit == 1 then d else 0
  {}

  lemma EitherOrder<T(!new)>(op: (T, T) -> T, x: T, y: T)
    requires Commutative(op)
    ensures op(x, y) == op(y, x)
  {}

  // The peer of a lane is a lane when the lanes form whole groups.
  lemma PeerInRange(groups: nat, lane: nat, w: nat, k: nat)
    requires k < w && lane < groups * Pow2(w)
    ensures Peer(lane, Pow2(k)) < groups * Pow2(w)
  {
    hide *;
    PeerFields(lane, k, w);
    var p, h := Peer(lane, Pow2(k)), Hi(lane, w);
    HiLo(p, w);
    HiLo(lane, w);
    if h >= groups { MulMono(groups, h, Pow2(w)); }
    MulMono(h + 1, groups, Pow2(w));
    MulSucc(h, Pow2(w));
  }

  // At the start a lane holds its own value, at the end its whole group's.
  lemma PartialEnds<T>(v: nat -> T, lane: nat, w: nat, op: (T, T) -> T)
    ensures Partial(v, lane, w, w, op) == v(lane)
    ensures Partial(v, lane, w, 0, op) == Reduce(v, GroupStart(lane, w), 1, Pow2(w), op)
  {
    HiLo(lane, w);
    HiLoDivMod(lane, w);
    PartialIs(v, lane, w, w, op);
    PartialIs(v, lane, w, 0, op);
  }

  /** Every lane of a group of 2^w ends with the reduction of exactly the group's initial values; v
      names them. One mask is one lockstep exchange: all lanes read before any writes. */
  method AllReduce<T(!new)>(lanes: array<T>, w: nat, ghost groups: nat, op: (T, T) -> T, ghost v: nat -> T)
    requires Commutative(op) && Associative(op) && lanes.Length == groups * Pow2(w)
    requires forall i: nat :: i < lanes.Length ==> v(i) == lanes[i]
    modifies lanes
    ensures forall i: nat :: i < lanes.Length ==> lanes[i] == Reduce(v, GroupStart(i, w), 1, Pow2(w), op)
  {
    hide *;
    forall i: nat | i < lanes.Length
      ensures lanes[i] == Partial(v, i, w, w, op)
    {
      PartialEnds(v, i, w, op);
    }
    ghost var k: nat := w;
    HalfPower(w);
    var m := Pow2(w) / 2;
    while m > 0
      invariant k <= w && m == if k == 0 then 0 else Pow2(k - 1)
      invariant forall i: nat :: i < lanes.Length ==> lanes[i] == Partial(v, i, w, k, op)
      decreases k
    {
      HalfPower(k - 1);
      Exchange(lanes, w, groups, op, v, k - 1, m);
      k := k - 1;
      m := m / 2;
    }
    forall i: nat | i < lanes.Length
      ensures lanes[i] == Reduce(v, GroupStart(i, w), 1, Pow2(w), op)
    {
      PartialEnds(v, i, w, op);
    }
  }

  /** One shuffle and one operation on every lane at once. */
  method Exchange<T(!new)>(lanes: array<T>, ghost w: nat, ghost groups: nat, op: (T, T) -> T, ghost v: nat -> T,
                           ghost k: nat, m: nat)
    requires Commutative(op) && Associative(op) && lanes.Length == groups * Pow2(w) && k < w && m == Pow2(k)
    requires forall i: nat :: i < lanes.Length ==> lanes[i] == Partial(v, i, w, k + 1, op)
    modifies lanes
    ensures forall i: nat :: i < lanes.Length ==> lanes[i] == Partial(v, i, w, k, op)
  {
    hide *;
    forall i: nat | i < lanes.Length
      ensures Peer(i, m) < lanes.Length
      ensures op(lanes[i], lanes[Peer(i, m)]) == Partial(v, i, w, k, op)
    {
      PeerInRange(groups, i, w, k);
      PartialStep(v, i, w, k, op);
    }
    forall i | 0 <= i < lanes.Length {
      lanes[i] := op(lanes[i], lanes[Peer(i, m)]);
    }
  }

  lemma HalfPower(k: nat)
    ensures Pow2(k) / 2 == if k == 0 then 0 else Pow2(k - 1)
  {}

  // ---------------------------------------------------------------------------------------------
  // The device reductions.

  function Add(x: int, y: int): int { x + y }
  function Min(x: int, y: int): int { if y < x then y else x }
  function Max(x: int, y: int): int { if y > x then y else x }

  lemma DeviceOperations()
    ensures Commutative(Add) && Associative(Add)
    ensures Commutative(Min) && Associative(Min)
    ensures Commutative(Max) && Associative(Max)
  {}

  ghost predicate InGroup(lane: nat, j: nat, w: nat) {
    GroupStart(lane, w) <= j < GroupStart(lane, w) + Pow2(w)
  }

  ghost predicate LeastOf(x: int, v: nat -> int, lane: nat, w: nat) {
    (forall j: nat :: InGroup(lane, j, w) ==> x <= v(j)) && exists j: nat :: InGroup(lane, j, w) && x == v(j)
  }

  ghost predicate GreatestOf(x: int, v: nat -> int, lane: nat, w: nat) {
    (forall j: nat :: InGroup(lane, j, w) ==> v(j) <= x) && exists j: nat :: InGroup(lane, j, w) && x == v(j)
  }

  lemma {:induction false} ReduceExtremes(v: nat -> int, start: nat, count: nat) returns (least: nat, greatest: nat)
    requires count >= 1
    ensures start <= least < start + count && start <= greatest < start + count
    ensures Reduce(v, start, 1, count, Min) == v(least) && Reduce(v, start, 1, count, Max) == v(greatest)
    ensures forall j: nat :: start <= j < start + count ==> v(least) <= v(j) <= v(greatest)
    decreases count
  {
    if count == 1 {
      least, greatest := start, start;
    } else {
      least, greatest := ReduceExtremes(v, start + 1, count - 1);
      if v(start) <= v(least) { least := start; }
      if v(start) >= v(greatest) { greatest := start; }
    }
  }

  lemma GroupExtremes(v: nat -> int, lane: nat, w: nat)
    ensures LeastOf(Reduce(v, GroupStart(lane, w), 1, Pow2(w), Min), v, lane, w)
    ensures GreatestOf(Reduce(v, GroupStart(lane, w), 1, Pow2(w), Max), v, lane, w)
    ensures InGroup(lane, lane, w)
  {
    hide GroupStart, Reduce, Pow2;
    GroupStartIs(lane, w);
    var least, greatest := ReduceExtremes(v, GroupStart(lane, w), Pow2(w));
    assert InGroup(lane, least, w) && InGroup(lane, greatest, w);
  }

  /** warp_reduce_min: every lane ends with the least of its group's values, its own among them. */
  method WarpReduceMin(lanes: array<int>, w: nat, ghost groups: nat, ghost v: nat -> int)
    requires lanes.Length == groups * Pow2(w) && forall i: nat :: i < lanes.Length ==> v(i) == lanes[i]
    modifies lanes
    ensures forall i: nat :: i < lanes.Length ==> LeastOf(lanes[i], v, i, w) && InGroup(i, i, w)
  {
    DeviceOperations();
    hide *;
    AllReduce(lanes, w, groups, Min, v);
    forall i: nat | i < lanes.Length
      ensures LeastOf(lanes[i], v, i, w) && InGroup(i, i, w)
    {
      GroupExtremes(v, i, w);
    }
  }

  /** warp_reduce_max, likewise. */
  method WarpReduceMax(lanes: array<int>, w: nat, ghost groups: nat, ghost v: nat -> int)
    requires lanes.Length == groups * Pow2(w) && forall i: nat :: i < lanes.Length ==> v(i) == lanes[i]
    modifies lanes
    ensures forall i: nat :: i < lanes.Length ==> GreatestOf(lanes[i], v, i, w) && InGroup(i, i, w)
  {
    DeviceOperations();
    hide *;
    AllReduce(lanes, w, groups, Max, v);
    forall i: nat | i < lanes.Length
      ensures GreatestOf(lanes[i], v, i, w) && InGroup(i, i, w)
    {
      GroupExtremes(v, i, w);
    }
  }

  /** The sum of some lanes' values. */
  function Total(v: nat -> int, start: nat, count: nat): int {
    if count == 0 then 0 else Total(v, start, count - 1) + v(start + count - 1)
  }

  lemma {:induction false} TotalFirst(v: nat -> int, start: nat, count: nat)
    requires count >= 1
    ensures Total(v, start, count) == v(start) + Total(v, start + 1, count - 1)
  {
    if count > 1 {
      TotalFirst(v, start, count - 1);
    } else {
      assert Total(v, start, 0) == 0 && Total(v, start + 1, 0) == 0;
    }
  }

  lemma {:induction false} ReduceAdd(v: nat -> int, start: nat, count: nat)
    requires count >= 1
    ensures Reduce(v, start, 1, count, Add) == Total(v, start, count)
    decreases count
  {
    TotalFirst(v, start, count);
    if count > 1 {
      ReduceAdd(v, start + 1, count - 1);
    } else {
      assert Total(v, start + 1, 0) == 0;
    }
  }

  /** warp_reduce_add: every lane ends with the sum of its group's values. */
  method WarpReduceAdd(lanes: array<int>, w: nat, ghost groups: nat, ghost v: nat -> int)
    requires lanes.Length == groups * Pow2(w) && forall i: nat :: i < lanes.Length ==> v(i) == lanes[i]
    modifies lanes
    ensures forall i: nat :: i < lanes.Length ==> lanes[i] == Total(v, GroupStart(i, w), Pow2(w)) && InGroup(i, i, w)
  {
    DeviceOperations();
    hide *;
    AllReduce(lanes, w, groups, Add, v);
    forall i: nat | i < lanes.Length
      ensures lanes[i] == Total(v, GroupStart(i, w), Pow2(w)) && InGroup(i, i, w)
    {
      ReduceAdd(v, GroupStart(i, w), Pow2(w));
      GroupExtremes(v, i, w);
    }
  }
}
