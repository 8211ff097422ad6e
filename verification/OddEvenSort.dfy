// The block sort: odd-even transposition, one barrier-separated round per element, each round
// spread over the threads of a block.

module OddEvenSort {
  import Bits
  import opened WeakOrder

  // ---------------------------------------------------------------------------------------------
  // One round. It exchanges the pairs that start at positions of one parity, and the pairs are
  // disjoint, so the order in which threads reach them does not matter.

  /** The step of thread index t in round i. Equal elements are exchanged too. */
  function Exchange<T>(s: seq<T>, i: nat, t: nat, cmp: (T, T) -> bool): (r: seq<T>)
    ensures |r| == |s|
  {
    var c := 2 * t + i % 2;
    if c + 1 < |s| && !cmp(s[c], s[c + 1]) then s[c := s[c + 1]][c + 1 := s[c]] else s
  }

  /** The element at position k after the whole round. */
  function RoundAt<T>(s: seq<T>, i: nat, cmp: (T, T) -> bool, k: nat): T
    requires k < |s|
  {
    if k % 2 == i % 2 then
      if k + 1 < |s| && !cmp(s[k], s[k + 1]) then s[k + 1] else s[k]
    else
      if k >= 1 && !cmp(s[k - 1], s[k]) then s[k - 1] else s[k]
  }

  function Round<T>(s: seq<T>, i: nat, cmp: (T, T) -> bool): (r: seq<T>)
    ensures |r| == |s|
  {
    seq(|s|, k requires 0 <= k < |s| => RoundAt(s, i, cmp, k))
  }

  /** The steps of a round in the order in which they happen. */
  function RunRound<T>(s: seq<T>, i: nat, order: seq<nat>, cmp: (T, T) -> bool): (r: seq<T>)
    ensures |r| == |s|
  {
    if order == [] then s
    else Exchange(RunRound(s, i, order[..|order| - 1], cmp), i, order[|order| - 1], cmp)
  }

  // The thread index that handles position k, or -1.
  function Handler(i: nat, k: nat): int { if k % 2 == i % 2 then k / 2 else (k - 1) / 2 }

  ghost predicate EachOnce(order: seq<nat>) {
    forall x, y :: 0 <= x < y < |order| ==> order[x] != order[y]
  }

  ghost predicate Done(order: seq<nat>, h: int) {
    exists m :: 0 <= m < |order| && order[m] == h
  }

  lemma ExchangeAt<T>(s: seq<T>, i: nat, t: nat, cmp: (T, T) -> bool, k: nat)
    requires k < |s|
    ensures Exchange(s, i, t, cmp)[k] == if Handler(i, k) == t then RoundAt(s, i, cmp, k) else s[k]
  {
    HandlerOfPair(i, t, k);
  }

  // Part way through a round, the positions already handled are final and the others untouched.
  lemma {:induction false} PartOfRound<T>(s: seq<T>, i: nat, order: seq<nat>, cmp: (T, T) -> bool, k: nat)
    requires EachOnce(order) && k < |s|
    ensures RunRound(s, i, order, cmp)[k] == if Done(order, Handler(i, k)) then RoundAt(s, i, cmp, k) else s[k]
  {
    if order != [] {
      var before, t := order[..|order| - 1], order[|order| - 1];
      var u := RunRound(s, i, before, cmp);
      DoneLast(order, Handler(i, k));
      PartOfRound(s, i, before, cmp, k);
      hide Exchange, Done;
      ExchangeAt(u, i, t, cmp, k);
      if Handler(i, k) == t {
        var c := 2 * t + i % 2;
        HandlerOfPair(i, t, k);
        HandlerOfPair(i, t, c);
        HandlerOfPair(i, t, c + 1);
        PartOfRound(s, i, before, cmp, c);
        if c + 1 < |s| {
          PartOfRound(s, i, before, cmp, c + 1);
        }
      }
    }
  }

  lemma DoneLast(order: seq<nat>, h: int)
    requires EachOnce(order) && order != []
    ensures EachOnce(order[..|order| - 1])
    ensures Done(order, h) <==> Done(order[..|order| - 1], h) || order[|order| - 1] == h
    ensures !Done(order[..|order| - 1], order[|order| - 1])
  {
    var before := order[..|order| - 1];
    if Done(order, h) {
      var m :| 0 <= m < |order| && order[m] == h;
      assert m < |before| ==> before[m] == h;
    }
    if Done(before, h) {
      var m :| 0 <= m < |before| && before[m] == h;
      assert order[m] == h;
    }
  }

  lemma HandlerOfPair(i: nat, t: nat, k: nat)
    ensures Handler(i, k) == t <==> k == 2 * t + i % 2 || k == 2 * t + i % 2 + 1
  {}

  // ---------------------------------------------------------------------------------------------
  // The threads of a block: thread b takes indices b, b + B, b + 2B, ... below n.

  function ThreadSteps(b: nat, B: nat, n: nat): seq<nat>
    requires B >= 1
    decreases n - b
  {
    if b < n then [b] + ThreadSteps(b + B, B, n) else []
  }

  /** The steps of one thread, in the order in which they happen. */
  function ByThread(order: seq<nat>, b: nat, B: nat): seq<nat>
    requires B >= 1
  {
    if order == [] then []
    else (if order[0] % B == b then [order[0]] else []) + ByThread(order[1..], b, B)
  }

  /** Any interleaving of the loops of the B threads. */
  ghost predicate IsSchedule(order: seq<nat>, n: nat, B: nat)
    requires B >= 1
  {
    forall b: nat :: b < B ==> ByThread(order, b, B) == ThreadSteps(b, B, n)
  }

  lemma {:induction false} ByThreadCount(order: seq<nat>, t: nat, B: nat)
    requires B >= 1
    ensures multiset(ByThread(order, t % B, B))[t] == multiset(order)[t]
  {
    if order != [] {
      ByThreadCount(order[1..], t, B);
      assert order == [order[0]] + order[1..];
      assert ByThread(order, t % B, B)
        == (if order[0] % B == t % B then [order[0]] else []) + ByThread(order[1..], t % B, B);
    }
  }

  lemma {:induction false} ThreadStepsCount(b: nat, B: nat, n: nat, t: nat)
    requires B >= 1 && t % B == b % B
    ensures multiset(ThreadSteps(b, B, n))[t] == if b <= t < n then 1 else 0
    decreases n - b
  {
    if b < n {
      NextStep(b, B, t);
      ThreadStepsCount(b + B, B, n, t);
    }
  }

  lemma NextStep(b: nat, B: nat, t: nat)
    requires B >= 1 && t % B == b % B
    ensures (b + B) % B == b % B
    ensures b <= t && t != b ==> b + B <= t
  {
    assert (b + B) / B == b / B + 1 && (b + B) % B == b % B by { StepQuotient(b, B); }
    if b < t < b + B {
      var u, v := b / B, t / B;
      assert b == u * B + b % B && t == v * B + t % B;
      if v <= u { Bits.MulMono(v, u, B); } else { Bits.MulMono(u + 1, v, B); }
    }
  }

  lemma StepQuotient(b: nat, B: nat)
    requires B >= 1
    ensures (b + B) / B == b / B + 1 && (b + B) % B == b % B
  {
    var q, r := b / B, b % B;
    assert b + B == (q + 1) * B + r;
    Bits.DivUnique(b + B, B, q + 1, r);
  }

  lemma VisitCount(order: seq<nat>, n: nat, B: nat, t: nat)
    requires B >= 1 && IsSchedule(order, n, B)
    ensures multiset(order)[t] == if t < n then 1 else 0
    ensures t in order <==> t < n
  {
    RemainderBelow(t, B);
    var b := t % B;
    assert ByThread(order, b, B) == ThreadSteps(b, B, n);
    hide *;
    ByThreadCount(order, t, B);
    ThreadStepsCount(b, B, n, t);
    assert t in order <==> t in multiset(order);
  }

  /** Whatever the number of threads and however they interleave, each index below n is visited
      exactly once. */
  lemma ScheduleCovers(order: seq<nat>, n: nat, B: nat)
    requires B >= 1 && IsSchedule(order, n, B)
    ensures EachOnce(order) && forall t: nat :: t in order <==> t < n
  {
    hide IsSchedule;
    forall t: nat
      ensures t in order <==> t < n
    {
      VisitCount(order, n, B, t);
    }
    forall x, y | 0 <= x < y < |order|
      ensures order[x] != order[y]
    {
      VisitCount(order, n, B, order[x]);
      TwiceCounted(order, x, y);
    }
  }

  lemma RemainderBelow(t: nat, B: nat)
    requires B >= 1
    ensures t % B <= t && t % B < B && t % B % B == t % B
  {
    Bits.DivUnique(t % B, B, 0, t % B);
    Bits.MulMono(0, t / B, B);
    assert t == t / B * B + t % B;
  }

  lemma TwiceCounted(s: seq<nat>, x: nat, y: nat)
    requires x < y < |s|
    ensures s[x] == s[y] ==> multiset(s)[s[x]] >= 2
  {
    assert s == s[..x] + [s[x]] + s[x + 1..y] + [s[y]] + s[y + 1..];
  }

  /** Every thread order of every block size computes the same round. */
  lemma ScheduleRound<T>(s: seq<T>, i: nat, order: seq<nat>, B: nat, cmp: (T, T) -> bool)
    requires B >= 1 && IsSchedule(order, |s|, B)
    ensures RunRound(s, i, order, cmp) == Round(s, i, cmp)
  {
    ScheduleCovers(order, |s|, B);
    forall k | 0 <= k < |s|
      ensures RunRound(s, i, order, cmp)[k] == RoundAt(s, i, cmp, k)
    {
      PartOfRound(s, i, order, cmp, k);
      if Handler(i, k) >= 0 {
        assert Handler(i, k) in order;
        assert Done(order, Handler(i, k));
      }
    }
  }

  // ---------------------------------------------------------------------------------------------
  // Why n rounds sort. Fix a value v and watch only which elements are at least v: each round acts
  // on those marks like an exchange of zeros and ones.

  /** How many elements from position x on are at least v. */
  function Above<T>(s: seq<T>, v: T, x: nat, cmp: (T, T) -> bool): (r: nat)
    requires x <= |s|
    ensures r <= |s| - x
    decreases |s| - x
  {
    if x == |s| then 0 else (if cmp(s[x], v) then 0 else 1) + Above(s, v, x + 1, cmp)
  }

  // In an exchanged pair the mark goes right.
  lemma PairMarks<T(!new)>(s: seq<T>, i: nat, v: T, c: nat, cmp: (T, T) -> bool)
    requires StrictWeakOrder(cmp) && c + 1 < |s| && c % 2 == i % 2
    ensures cmp(RoundAt(s, i, cmp, c + 1), v) <==> cmp(s[c], v) && cmp(s[c + 1], v)
    ensures cmp(RoundAt(s, i, cmp, c), v) <==> cmp(s[c], v) || cmp(s[c + 1], v)
  {
    if cmp(s[c], s[c + 1]) {
      Asymmetric(cmp, s[c], s[c + 1]);
      if !cmp(s[c], v) { NotGreaterTransitive(cmp, v, s[c], s[c + 1]); }
    } else {
      if !cmp(s[c + 1], v) { NotGreaterTransitive(cmp, v, s[c + 1], s[c]); }
    }
  }

  // Between two pairs nothing crosses.
  lemma {:induction false} Uncrossed<T(!new)>(s: seq<T>, i: nat, v: T, x: nat, cmp: (T, T) -> bool)
    requires StrictWeakOrder(cmp) && x <= |s| && (x == |s| || x % 2 == i % 2)
    ensures Above(Round(s, i, cmp), v, x, cmp) == Above(s, v, x, cmp)
    decreases |s| - x
  {
    var r := Round(s, i, cmp);
    if x + 1 < |s| {
      PairMarks(s, i, v, x, cmp);
      Uncrossed(s, i, v, x + 2, cmp);
      assert Above(r, v, x + 1, cmp) == (if cmp(r[x + 1], v) then 0 else 1) + Above(r, v, x + 2, cmp);
      assert Above(s, v, x + 1, cmp) == (if cmp(s[x + 1], v) then 0 else 1) + Above(s, v, x + 2, cmp);
    } else if x + 1 == |s| {
      assert r[x] == s[x];
      assert Above(r, v, x + 1, cmp) == 0 && Above(s, v, x + 1, cmp) == 0;
    }
  }

  // Inside a pair a mark crosses to the right when the right one is free.
  lemma Crossed<T(!new)>(s: seq<T>, i: nat, v: T, x: nat, cmp: (T, T) -> bool)
    requires StrictWeakOrder(cmp) && 0 < x < |s| && x % 2 != i % 2
    ensures Above(Round(s, i, cmp), v, x, cmp)
         == var left, right := Above(s, v, x - 1, cmp), Above(s, v, x + 1, cmp) + 1;
            if left <= right then left else right
  {
    var r := Round(s, i, cmp);
    PairMarks(s, i, v, x - 1, cmp);
    Uncrossed(s, i, v, x + 1, cmp);
    assert Above(s, v, x - 1, cmp) == (if cmp(s[x - 1], v) then 0 else 1) + Above(s, v, x, cmp);
    assert Above(s, v, x, cmp) == (if cmp(s[x], v) then 0 else 1) + Above(s, v, x + 1, cmp);
    assert Above(r, v, x, cmp) == (if cmp(r[x], v) then 0 else 1) + Above(r, v, x + 1, cmp);
  }

  lemma AllKept<T(!new)>(s: seq<T>, i: nat, v: T, cmp: (T, T) -> bool)
    requires StrictWeakOrder(cmp)
    ensures Above(Round(s, i, cmp), v, 0, cmp) == Above(s, v, 0, cmp)
  {
    if i % 2 == 0 || |s| == 0 {
      Uncrossed(s, i, v, 0, cmp);
    } else {
      Uncrossed(s, i, v, 1, cmp);
      assert Round(s, i, cmp)[0] == s[0];
    }
  }

  function Min3(a: int, b: int, c: int): int {
    if a <= b && a <= c then a else if b <= c then b else c
  }

  // K rounded up to an even number.
  function EvenUp(K: nat): nat { K + K % 2 }

  /** After t rounds, at least this many of the K marks are at x or beyond. */
  ghost predicate Progress<T>(s: seq<T>, v: T, K: nat, t: nat, cmp: (T, T) -> bool) {
    && Above(s, v, 0, cmp) == K
    && forall x :: 0 <= x <= |s| ==> Above(s, v, x, cmp) >= Min3(K, |s| - x, (t + EvenUp(K) - x) / 2)
  }

  lemma {:induction false} AboveSkip<T>(s: seq<T>, v: T, x: nat, cmp: (T, T) -> bool)
    requires x <= |s|
    ensures Above(s, v, 0, cmp) - x <= Above(s, v, x, cmp)
  {
    if x > 0 {
      AboveSkip(s, v, x - 1, cmp);
    }
  }

  lemma ProgressStart<T>(s: seq<T>, v: T, cmp: (T, T) -> bool)
    ensures Progress(s, v, Above(s, v, 0, cmp), 0, cmp)
  {
    forall x | 0 <= x <= |s|
      ensures Above(s, v, x, cmp) >= Min3(Above(s, v, 0, cmp), |s| - x, (0 + EvenUp(Above(s, v, 0, cmp)) - x) / 2)
    {
      AboveSkip(s, v, x, cmp);
    }
  }

  lemma UncrossedBound(K: nat, n: int, x: int, t: nat, A: int)
    requires x % 2 == t % 2 && A >= Min3(K, n - x, (t + EvenUp(K) - x) / 2)
    ensures A >= Min3(K, n - x, (t + 1 + EvenUp(K) - x) / 2)
  {}

  lemma CrossedBound(K: nat, n: int, x: int, t: nat, left: int, right: int)
    requires left >= Min3(K, n - (x - 1), (t + EvenUp(K) - (x - 1)) / 2)
    requires right >= Min3(K, n - (x + 1), (t + EvenUp(K) - (x + 1)) / 2)
    ensures left >= Min3(K, n - x, (t + 1 + EvenUp(K) - x) / 2)
    ensures right + 1 >= Min3(K, n - x, (t + 1 + EvenUp(K) - x) / 2)
  {}

  lemma ProgressStep<T(!new)>(s: seq<T>, v: T, K: nat, t: nat, cmp: (T, T) -> bool)
    requires StrictWeakOrder(cmp) && Progress(s, v, K, t, cmp)
    ensures Progress(Round(s, t, cmp), v, K, t + 1, cmp)
  {
    hide StrictWeakOrder, Min3, EvenUp;
    AllKept(s, t, v, cmp);
    forall x | 0 <= x <= |s|
      ensures Above(Round(s, t, cmp), v, x, cmp) >= Min3(K, |s| - x, (t + 1 + EvenUp(K) - x) / 2)
    {
      ProgressAt(s, v, K, t, x, cmp);
    }
  }

  lemma ProgressAt<T(!new)>(s: seq<T>, v: T, K: nat, t: nat, x: nat, cmp: (T, T) -> bool)
    requires StrictWeakOrder(cmp) && Progress(s, v, K, t, cmp) && x <= |s|
    ensures Above(Round(s, t, cmp), v, x, cmp) >= Min3(K, |s| - x, (t + 1 + EvenUp(K) - x) / 2)
  {
    var n := |s|;
    if x == n || x == 0 {
      AllKept(s, t, v, cmp);
    } else if x % 2 == t % 2 {
      Uncrossed(s, t, v, x, cmp);
      UncrossedBound(K, n, x, t, Above(s, v, x, cmp));
    } else {
      Crossed(s, t, v, x, cmp);
      hide StrictWeakOrder, Min3, EvenUp, Round;
      CrossedBound(K, n, x, t, Above(s, v, x - 1, cmp), Above(s, v, x + 1, cmp));
    }
  }

  // When all K marks fill the last K places, they are exactly those.
  lemma {:induction false} FullSuffix<T>(s: seq<T>, v: T, x: nat, k: nat, cmp: (T, T) -> bool)
    requires x <= k < |s| && Above(s, v, x, cmp) == |s| - x
    ensures !cmp(s[k], v)
    decreases k - x
  {
    if x < k {
      FullSuffix(s, v, x + 1, k, cmp);
    }
  }

  // A mark before the last K places would be one too many.
  lemma {:induction false} MarkCounts<T>(s: seq<T>, v: T, x: nat, k: nat, cmp: (T, T) -> bool)
    requires x <= k < |s| && !cmp(s[k], v)
    ensures Above(s, v, x, cmp) >= 1 + Above(s, v, k + 1, cmp)
    decreases k - x
  {
    if x < k {
      MarkCounts(s, v, x + 1, k, cmp);
    }
  }

  lemma {:induction false} AboveMonotone<T>(s: seq<T>, v: T, x: nat, y: nat, cmp: (T, T) -> bool)
    requires x <= y <= |s|
    ensures Above(s, v, y, cmp) <= Above(s, v, x, cmp)
    decreases y - x
  {
    if x < y {
      AboveMonotone(s, v, x + 1, y, cmp);
    }
  }

  lemma ProgressSorts<T(!new)>(s: seq<T>, i: nat, j: nat, cmp: (T, T) -> bool)
    requires StrictWeakOrder(cmp) && i < j < |s|
    requires Progress(s, s[i], Above(s, s[i], 0, cmp), |s|, cmp)
    ensures !cmp(s[j], s[i])
  {
    var v, n := s[i], |s|;
    var K := Above(s, v, 0, cmp);
    assert Above(s, v, n - K, cmp) >= Min3(K, n - (n - K), (n + EvenUp(K) - (n - K)) / 2);
    if i < n - K {
      AboveMonotone(s, v, i + 1, n - K, cmp);
      MarkCounts(s, v, 0, i, cmp);
    } else {
      FullSuffix(s, v, n - K, j, cmp);
    }
  }

  // ---------------------------------------------------------------------------------------------
  // The whole sort.

  function Rounds<T>(s: seq<T>, t: nat, cmp: (T, T) -> bool): (r: seq<T>)
    ensures |r| == |s|
  {
    if t == 0 then s else Round(Rounds(s, t - 1, cmp), t - 1, cmp)
  }

  lemma {:induction false} RoundsProgress<T(!new)>(s: seq<T>, t: nat, v: T, cmp: (T, T) -> bool)
    requires StrictWeakOrder(cmp)
    ensures Progress(Rounds(s, t, cmp), v, Above(s, v, 0, cmp), t, cmp)
  {
    hide Progress, StrictWeakOrder, Round, Above;
    if t == 0 {
      ProgressStart(s, v, cmp);
    } else {
      RoundsProgress(s, t - 1, v, cmp);
      ProgressStep(Rounds(s, t - 1, cmp), v, Above(s, v, 0, cmp), t - 1, cmp);
    }
  }

  /** As many rounds as elements leave any input sorted. */
  lemma RoundsSort<T(!new)>(s: seq<T>, cmp: (T, T) -> bool)
    requires StrictWeakOrder(cmp)
    ensures Sorted(Rounds(s, |s|, cmp), 0, |s|, cmp)
  {
    var r := Rounds(s, |s|, cmp);
    forall i, j | 0 <= i < j < |s|
      ensures !cmp(r[j], r[i])
    {
      RoundsProgress(s, |s|, r[i], cmp);
      ProgressSorts(r, i, j, cmp);
    }
  }

  lemma {:induction false} RunRoundPermutes<T>(s: seq<T>, i: nat, order: seq<nat>, cmp: (T, T) -> bool)
    ensures multiset(RunRound(s, i, order, cmp)) == multiset(s)
  {
    if order != [] {
      RunRoundPermutes(s, i, order[..|order| - 1], cmp);
    }
  }

  /** What one thread does at one index. */
  method ExchangeInPlace<T(!new)>(a: array<T>, i: nat, tIdx: nat, cmp: (T, T) -> bool)
    modifies a
    ensures a[..] == Exchange(old(a[..]), i, tIdx, cmp)
  {
    var curPos := 2 * tIdx + i % 2;
    var nextPos := curPos + 1;
    if nextPos < a.Length {
      if !cmp(a[curPos], a[nextPos]) {
        a[curPos], a[nextPos] := a[nextPos], a[curPos];
      }
    }
  }

  /** Equal neighbours of a pair change places too: a round of equal elements exchanges every pair. */
  lemma EqualsExchanged<T>(s: seq<T>, i: nat, cmp: (T, T) -> bool, k: nat)
    requires k + 1 < |s| && k % 2 == i % 2 && !cmp(s[k], s[k + 1]) && !cmp(s[k + 1], s[k])
    ensures Round(s, i, cmp)[k] == s[k + 1] && Round(s, i, cmp)[k + 1] == s[k]
  {
    assert (k + 1) % 2 != i % 2;
  }

  /** The loop as a block of B threads runs it, with any interleaving inside each round: as many rounds as
      elements, and the same result whatever the interleaving. */
  method SortInBlock<T(!new)>(a: array<T>, cmp: (T, T) -> bool, B: nat, schedule: nat -> seq<nat>)
    requires StrictWeakOrder(cmp) && B >= 1
    requires forall i :: 0 <= i < a.Length ==> IsSchedule(schedule(i), a.Length, B)
    modifies a
    ensures Sorted(a[..], 0, a.Length, cmp)
    ensures multiset(a[..]) == multiset(old(a[..]))
    ensures a[..] == Rounds(old(a[..]), a.Length, cmp)
  {
    hide StrictWeakOrder, IsSchedule, Round, Exchange;
    var n := a.Length;
    for i := 0 to n
      invariant a[..] == Rounds(old(a[..]), i, cmp)
      invariant multiset(a[..]) == multiset(old(a[..]))
    {
      ghost var s := a[..];
      var order := schedule(i);
      for m := 0 to |order|
        invariant a[..] == RunRound(s, i, order[..m], cmp)
      {
        assert order[..m + 1][..m] == order[..m];
        ExchangeInPlace(a, i, order[m], cmp);
      }
      assert order[..|order|] == order;
      RunRoundPermutes(s, i, order, cmp);
      ScheduleRound(s, i, order, B, cmp);
    }
    RoundsSort(old(a[..]), cmp);
  }
}
