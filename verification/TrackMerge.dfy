// Merging the sub-events of one event: all primaries first, then all secondaries, with every mother,
// daughter and track reference renumbered by running offsets.

module TrackMerge {

  /** The fields the merger reads or rewrites; body stands for everything else a track carries. */
  datatype Track<P> = Track(mother: int, firstDaughter: int, lastDaughter: int, transported: bool, body: P)

  /** One sub-event as it arrived: its tracks, primaries first. */
  datatype SubEvent<P> = SubEvent(tracks: seq<Track<P>>, nprim: nat)

  ghost predicate WellFormed<P>(b: SubEvent<P>) {
    && b.nprim <= |b.tracks|
    && forall i :: b.nprim <= i < |b.tracks| ==> 0 <= b.tracks[i].mother < i
  }

  // ---------------------------------------------------------------------------------------------
  // The index map. Blocks are the sub-events in the order in which they are written.

  function PrimStart<P>(blocks: seq<SubEvent<P>>, k: nat): (r: nat)
    requires k <= |blocks|
  {
    if k == 0 then 0 else PrimStart(blocks, k - 1) + blocks[k - 1].nprim
  }

  function TrackCount<P>(blocks: seq<SubEvent<P>>, k: nat): (r: nat)
    requires k <= |blocks|
  {
    if k == 0 then 0 else TrackCount(blocks, k - 1) + |blocks[k - 1].tracks|
  }

  function PrimTotal<P>(blocks: seq<SubEvent<P>>): nat { PrimStart(blocks, |blocks|) }

  // Where the secondaries of block k start.
  function SecStart<P>(blocks: seq<SubEvent<P>>, k: nat): int
    requires k <= |blocks|
  {
    PrimTotal(blocks) + TrackCount(blocks, k) - PrimStart(blocks, k)
  }

  /** The output position of track i of block k. */
  function IndexMap<P>(blocks: seq<SubEvent<P>>, k: nat, i: nat): int
    requires k < |blocks|
  {
    if i < blocks[k].nprim then PrimStart(blocks, k) + i else SecStart(blocks, k) + (i - blocks[k].nprim)
  }

  ghost predicate AllWellFormed<P>(blocks: seq<SubEvent<P>>) {
    forall k :: 0 <= k < |blocks| ==> WellFormed(blocks[k])
  }

  lemma {:induction false} StartsMonotone<P>(blocks: seq<SubEvent<P>>, j: nat, k: nat)
    requires AllWellFormed(blocks) && j <= k <= |blocks|
    ensures PrimStart(blocks, j) <= PrimStart(blocks, k)
    ensures SecStart(blocks, j) <= SecStart(blocks, k)
    ensures j < k ==> PrimStart(blocks, j) + blocks[j].nprim <= PrimStart(blocks, k)
    ensures j < k ==> SecStart(blocks, j) + |blocks[j].tracks| - blocks[j].nprim <= SecStart(blocks, k)
    decreases k - j
  {
    if j < k {
      assert WellFormed(blocks[j]);
      StartsMonotone(blocks, j + 1, k);
    }
  }

  /** Every track gets a position of its own, below the total; primaries come before secondaries. */
  lemma IndexRange<P>(blocks: seq<SubEvent<P>>, k: nat, i: nat)
    requires AllWellFormed(blocks) && k < |blocks| && i < |blocks[k].tracks|
    ensures 0 <= IndexMap(blocks, k, i) < TrackCount(blocks, |blocks|)
    ensures i < blocks[k].nprim <==> IndexMap(blocks, k, i) < PrimTotal(blocks)
    ensures i >= blocks[k].nprim ==> IndexMap(blocks, k, i) < SecStart(blocks, k + 1)
  {
    StartsMonotone(blocks, 0, k);
    StartsMonotone(blocks, k, k + 1);
    StartsMonotone(blocks, k + 1, |blocks|);
    StartsMonotone(blocks, 0, |blocks|);
  }

  /** No two tracks share a position. */
  lemma IndexInjective<P>(blocks: seq<SubEvent<P>>, k: nat, i: nat, k': nat, i': nat)
    requires AllWellFormed(blocks)
    requires k < |blocks| && i < |blocks[k].tracks| && k' < |blocks| && i' < |blocks[k'].tracks|
    requires IndexMap(blocks, k, i) == IndexMap(blocks, k', i')
    ensures k == k' && i == i'
  {
    IndexRange(blocks, k, i);
    IndexRange(blocks, k', i');
    if k < k' {
      StartsMonotone(blocks, k, k');
    } else if k' < k {
      StartsMonotone(blocks, k', k);
    }
  }

  /** Primaries keep their order, and so do secondaries. */
  lemma IndexInOrder<P>(blocks: seq<SubEvent<P>>, k: nat, i: nat, k': nat, i': nat)
    requires AllWellFormed(blocks)
    requires k < |blocks| && i < |blocks[k].tracks| && k' < |blocks| && i' < |blocks[k'].tracks|
    requires i < blocks[k].nprim <==> i' < blocks[k'].nprim
    requires k < k' || (k == k' && i < i')
    ensures IndexMap(blocks, k, i) < IndexMap(blocks, k', i')
  {
    StartsMonotone(blocks, k, k');
  }

  /** And no position stays empty. */
  lemma IndexOnto<P>(blocks: seq<SubEvent<P>>, x: nat) returns (k: nat, i: nat)
    requires AllWellFormed(blocks) && x < TrackCount(blocks, |blocks|)
    ensures k < |blocks| && i < |blocks[k].tracks| && IndexMap(blocks, k, i) == x
  {
    if x < PrimTotal(blocks) {
      k := |blocks|;
      while PrimStart(blocks, k) > x
        invariant k <= |blocks| && (k < |blocks| ==> x < PrimStart(blocks, k + 1))
        invariant k == |blocks| ==> x < PrimStart(blocks, k)
        decreases k
      {
        k := k - 1;
      }
      i := x - PrimStart(blocks, k);
      assert WellFormed(blocks[k]);
    } else {
      k := |blocks|;
      while SecStart(blocks, k) > x
        invariant k <= |blocks| && (k < |blocks| ==> x < SecStart(blocks, k + 1))
        invariant k == |blocks| ==> x < SecStart(blocks, k)
        decreases k
      {
        k := k - 1;
      }
      i := x - SecStart(blocks, k) + blocks[k].nprim;
    }
  }

  // ---------------------------------------------------------------------------------------------
  // Daughters.

  ghost predicate IsDaughter<P>(t: seq<Track<P>>, np: nat, x: int, y: int) {
    np <= y < |t| && t[y].mother == x
  }

  /** The first daughter is what it was when the track was written unless that was -1; then it is the
      least index of a secondary with this mother. */
  ghost predicate FirstDaughterRight<P>(t: seq<Track<P>>, np: nat, x: nat, f0: int)
    requires x < |t|
  {
    var f := t[x].firstDaughter;
    if f0 != -1 then f == f0
    else if f == -1 then forall y :: !IsDaughter(t, np, x, y)
    else IsDaughter(t, np, x, f) && forall y :: IsDaughter(t, np, x, y) ==> f <= y
  }

  /** The last daughter is the greatest such index, or untouched when there is none. */
  ghost predicate LastDaughterRight<P>(t: seq<Track<P>>, np: nat, x: nat, l0: int)
    requires x < |t|
  {
    var l := t[x].lastDaughter;
    if exists y :: IsDaughter(t, np, x, y)
    then IsDaughter(t, np, x, l) && forall y :: IsDaughter(t, np, x, y) ==> y <= l
    else l == l0
  }

  /** The daughter fields a track is written with. */
  function WrittenFirst<P>(b: SubEvent<P>, i: nat): int
    requires i < |b.tracks|
  {
    if i >= b.nprim || b.tracks[i].transported then -1 else b.tracks[i].firstDaughter
  }

  function WrittenLast<P>(b: SubEvent<P>, i: nat): int
    requires i < |b.tracks|
  {
    if i < b.nprim && b.tracks[i].transported then -1 else b.tracks[i].lastDaughter
  }

  // ---------------------------------------------------------------------------------------------
  // What one merged track looks like.

  /** Track i of block k stands at its mapped position; the mother of a secondary is mapped too, and
      the daughter fields count the secondaries written so far. */
  ghost predicate Placed<P>(blocks: seq<SubEvent<P>>, t: seq<Track<P>>, k: nat, i: nat)
    requires k < |blocks| && i < |blocks[k].tracks| && WellFormed(blocks[k])
  {
    var x, b := IndexMap(blocks, k, i), blocks[k];
    && 0 <= x < |t|
    && t[x].body == b.tracks[i].body && t[x].transported == b.tracks[i].transported
    && t[x].mother == (if i < b.nprim then b.tracks[i].mother else IndexMap(blocks, k, b.tracks[i].mother))
    && FirstDaughterRight(t, PrimTotal(blocks), x, WrittenFirst(b, i))
    && LastDaughterRight(t, PrimTotal(blocks), x, WrittenLast(b, i))
  }

  /** The merged list of an event. */
  ghost predicate Merged<P>(blocks: seq<SubEvent<P>>, t: seq<Track<P>>)
    requires AllWellFormed(blocks)
  {
    && |t| == TrackCount(blocks, |blocks|)
    && forall k: nat, i: nat :: k < |blocks| && i < |blocks[k].tracks| ==> Placed(blocks, t, k, i)
  }

  ghost predicate HasDaughters<P>(t: seq<Track<P>>, np: nat, x: nat) { exists y :: IsDaughter(t, np, x, y) }

  ghost predicate IsFirstDaughter<P>(t: seq<Track<P>>, np: nat, x: nat, f: int) {
    IsDaughter(t, np, x, f) && forall y :: IsDaughter(t, np, x, y) ==> f <= y
  }

  ghost predicate IsLastDaughter<P>(t: seq<Track<P>>, np: nat, x: nat, l: int) {
    IsDaughter(t, np, x, l) && forall y :: IsDaughter(t, np, x, y) ==> y <= l
  }

  /** The daughters a track ends up with. The last one is the greatest output index of a daughter, and the first
      one the least; only a primary that was not transported keeps a first daughter it came with. A transported
      primary without daughters has none, other tracks without any keep what they came with, but secondaries
      have no first one. */
  ghost predicate DaughtersRight<P>(blocks: seq<SubEvent<P>>, t: seq<Track<P>>, k: nat, i: nat)
    requires k < |blocks| && i < |blocks[k].tracks|
  {
    var x, came, np := IndexMap(blocks, k, i), blocks[k].tracks[i], PrimTotal(blocks);
    && 0 <= x < |t|
    && if HasDaughters(t, np, x) then
         && IsLastDaughter(t, np, x, t[x].lastDaughter)
         && if i < blocks[k].nprim && !came.transported && came.firstDaughter != -1
            then t[x].firstDaughter == came.firstDaughter
            else IsFirstDaughter(t, np, x, t[x].firstDaughter)
       else if i >= blocks[k].nprim then t[x].firstDaughter == -1 && t[x].lastDaughter == came.lastDaughter
       else if came.transported then t[x].firstDaughter == -1 && t[x].lastDaughter == -1
       else t[x].firstDaughter == came.firstDaughter && t[x].lastDaughter == came.lastDaughter
  }

  ghost predicate AllDaughtersRight<P>(blocks: seq<SubEvent<P>>, t: seq<Track<P>>) {
    forall k: nat, i: nat :: k < |blocks| && i < |blocks[k].tracks| ==> DaughtersRight(blocks, t, k, i)
  }

  lemma MergedDaughters<P>(blocks: seq<SubEvent<P>>, t: seq<Track<P>>)
    requires AllWellFormed(blocks) && Merged(blocks, t)
    ensures AllDaughtersRight(blocks, t)
  {
    hide IndexMap, PrimTotal, IsDaughter;
    forall k: nat, i: nat | k < |blocks| && i < |blocks[k].tracks|
      ensures DaughtersRight(blocks, t, k, i)
    {
      assert WellFormed(blocks[k]) && Placed(blocks, t, k, i);
      IndexRange(blocks, k, i);
      NoNegativeDaughter(t, PrimTotal(blocks), IndexMap(blocks, k, i));
    }
  }

  lemma NoNegativeDaughter<P>(t: seq<Track<P>>, np: nat, x: int)
    ensures !IsDaughter(t, np, x, -1)
  {}

  // The writing of secondaries has reached track n of block j.
  predicate Written<P>(blocks: seq<SubEvent<P>>, j: nat, n: nat, k: nat, i: nat)
    requires k < |blocks|
  {
    i < blocks[k].nprim || k < j || (k == j && i < n)
  }

  ghost predicate MothersBelow<P>(t: seq<Track<P>>, np: nat) {
    forall y :: np <= y < |t| ==> 0 <= t[y].mother < y
  }

  ghost predicate MergedUpTo<P>(blocks: seq<SubEvent<P>>, t: seq<Track<P>>, j: nat, n: nat)
    requires AllWellFormed(blocks) && j <= |blocks|
  {
    && |t| == SecStart(blocks, j) + (if j < |blocks| then n - blocks[j].nprim else 0)
    && PrimTotal(blocks) <= |t| && MothersBelow(t, PrimTotal(blocks))
    && forall k: nat, i: nat :: k < |blocks| && i < |blocks[k].tracks| && Written(blocks, j, n, k, i) ==>
         Placed(blocks, t, k, i)
  }

  /** Writing one secondary: its mother's daughter fields first, then the track. */
  function Appended<P>(t: seq<Track<P>>, c: nat, track: Track<P>): seq<Track<P>>
    requires c < |t|
  {
    var mother := t[c];
    var first := if mother.firstDaughter == -1 then |t| else mother.firstDaughter;
    t[c := mother.(firstDaughter := first, lastDaughter := |t|)] + [track]
  }

  lemma DaughterStep<P>(t: seq<Track<P>>, np: nat, x: nat, f0: int, l0: int, c: nat, track: Track<P>)
    requires x < |t| && np <= |t| && c < |t| && track.mother == c
    requires FirstDaughterRight(t, np, x, f0) && LastDaughterRight(t, np, x, l0)
    ensures FirstDaughterRight(Appended(t, c, track), np, x, f0) && LastDaughterRight(Appended(t, c, track), np, x, l0)
  {
    var u := Appended(t, c, track);
    forall y
      ensures IsDaughter(u, np, x, y) <==> IsDaughter(t, np, x, y) || (x == c && y == |t|)
    {
    }
  }

  lemma NewTrackHasNoDaughters<P>(t: seq<Track<P>>, np: nat, c: nat, track: Track<P>)
    requires np <= |t| && c < |t| && track.mother == c && track.firstDaughter == -1 && MothersBelow(t, np)
    ensures MothersBelow(Appended(t, c, track), np)
    ensures FirstDaughterRight(Appended(t, c, track), np, |t|, -1)
    ensures LastDaughterRight(Appended(t, c, track), np, |t|, track.lastDaughter)
  {
    var u := Appended(t, c, track);
    forall y
      ensures !IsDaughter(u, np, |t|, y)
    {
    }
  }

  /** One turn of the second loop. The mother is already in the list. */
  lemma AppendKeeps<P>(blocks: seq<SubEvent<P>>, t: seq<Track<P>>, j: nat, n: nat)
    requires AllWellFormed(blocks) && j < |blocks| && blocks[j].nprim <= n < |blocks[j].tracks|
    requires MergedUpTo(blocks, t, j, n)
    ensures var b := blocks[j].tracks[n];
            var c := IndexMap(blocks, j, b.mother);
            0 <= c < |t| && MergedUpTo(blocks, Appended(t, c, b.(mother := c, firstDaughter := -1)), j, n + 1)
  {
    var np := PrimTotal(blocks);
    assert WellFormed(blocks[j]);
    var b := blocks[j].tracks[n];
    var c := IndexMap(blocks, j, b.mother);
    IndexRange(blocks, j, b.mother);
    var track := b.(mother := c, firstDaughter := -1);
    var u := Appended(t, c, track);
    NewTrackHasNoDaughters(t, np, c, track);
    forall k: nat, i: nat | k < |blocks| && i < |blocks[k].tracks| && Written(blocks, j, n + 1, k, i)
      ensures Placed(blocks, u, k, i)
    {
      if !(k == j && i == n) {
        assert Written(blocks, j, n, k, i);
        assert Placed(blocks, t, k, i);
        DaughterStep(t, np, IndexMap(blocks, k, i), WrittenFirst(blocks[k], i), WrittenLast(blocks[k], i), c, track);
      }
    }
  }

  // Moving on to the next block.
  lemma NextBlock<P>(blocks: seq<SubEvent<P>>, t: seq<Track<P>>, j: nat)
    requires AllWellFormed(blocks) && j < |blocks| && MergedUpTo(blocks, t, j, |blocks[j].tracks|)
    ensures MergedUpTo(blocks, t, j + 1, if j + 1 < |blocks| then blocks[j + 1].nprim else 0)
  {
    var n := if j + 1 < |blocks| then blocks[j + 1].nprim else 0;
    forall k: nat, i: nat | k < |blocks| && i < |blocks[k].tracks| && Written(blocks, j + 1, n, k, i)
      ensures Placed(blocks, t, k, i)
    {
      assert Written(blocks, j, |blocks[j].tracks|, k, i);
    }
  }

  lemma AllBlocks<P>(blocks: seq<SubEvent<P>>, t: seq<Track<P>>)
    requires AllWellFormed(blocks) && MergedUpTo(blocks, t, |blocks|, 0)
    ensures Merged(blocks, t)
  {
    forall k: nat, i: nat | k < |blocks| && i < |blocks[k].tracks|
      ensures Placed(blocks, t, k, i)
    {
      assert Written(blocks, |blocks|, 0, k, i);
    }
  }

  // ---------------------------------------------------------------------------------------------
  // The first loop.

  /** Daughters are reset only when the track was transported. */
  function Reset<P>(t: Track<P>): Track<P> {
    if t.transported then t.(firstDaughter := -1, lastDaughter := -1) else t
  }

  function PrimPart<P>(b: SubEvent<P>, n: nat): (r: seq<Track<P>>)
    requires n <= |b.tracks|
    ensures |r| == n
  {
    if n == 0 then [] else PrimPart(b, n - 1) + [Reset(b.tracks[n - 1])]
  }

  lemma {:induction false} PrimPartAt<P>(b: SubEvent<P>, n: nat, i: nat)
    requires i < n <= |b.tracks|
    ensures PrimPart(b, n)[i] == Reset(b.tracks[i])
  {
    if i < n - 1 {
      PrimPartAt(b, n - 1, i);
    }
  }

  function ConcatPrims<P>(blocks: seq<SubEvent<P>>, k: nat): (r: seq<Track<P>>)
    requires k <= |blocks| && AllWellFormed(blocks)
    ensures |r| == PrimStart(blocks, k)
  {
    if k == 0 then []
    else
      assert WellFormed(blocks[k - 1]);
      ConcatPrims(blocks, k - 1) + PrimPart(blocks[k - 1], blocks[k - 1].nprim)
  }

  lemma {:induction false} ConcatPrimsAt<P>(blocks: seq<SubEvent<P>>, k: nat, j: nat, i: nat)
    requires AllWellFormed(blocks) && j < k <= |blocks| && i < blocks[j].nprim && WellFormed(blocks[j])
    ensures PrimStart(blocks, j) + i < PrimStart(blocks, k)
    ensures ConcatPrims(blocks, k)[PrimStart(blocks, j) + i] == Reset(blocks[j].tracks[i])
  {
    StartsMonotone(blocks, j, k);
    if j < k - 1 {
      ConcatPrimsAt(blocks, k - 1, j, i);
    } else {
      PrimPartAt(blocks[j], blocks[j].nprim, i);
    }
  }

  lemma PrimariesPlaced<P>(blocks: seq<SubEvent<P>>)
    requires AllWellFormed(blocks) && |blocks| > 0
    ensures MergedUpTo(blocks, ConcatPrims(blocks, |blocks|), 0, blocks[0].nprim)
  {
    var t := ConcatPrims(blocks, |blocks|);
    hide Placed, IndexMap, ConcatPrims;
    forall k: nat, i: nat | k < |blocks| && i < |blocks[k].tracks| && Written(blocks, 0, blocks[0].nprim, k, i)
      ensures Placed(blocks, t, k, i)
    {
      PrimaryPlaced(blocks, t, k, i);
    }
  }

  // Without secondaries there are no daughters yet.
  lemma PrimaryPlaced<P>(blocks: seq<SubEvent<P>>, t: seq<Track<P>>, k: nat, i: nat)
    requires AllWellFormed(blocks) && t == ConcatPrims(blocks, |blocks|)
    requires k < |blocks| && i < |blocks[k].tracks| && i < blocks[k].nprim
    ensures WellFormed(blocks[k]) && Placed(blocks, t, k, i)
  {
    assert WellFormed(blocks[k]);
    ConcatPrimsAt(blocks, |blocks|, k, i);
    hide ConcatPrims;
    assert |t| == PrimTotal(blocks);
    forall x, y
      ensures !IsDaughter(t, PrimTotal(blocks), x, y)
    {
    }
  }

  // ---------------------------------------------------------------------------------------------
  // The method.

  ghost predicate IsOrder(order: seq<nat>, n: nat) {
    && |order| == n
    && (forall e :: 0 <= e < n ==> order[e] < n)
    && (forall e, f :: 0 <= e < f < n ==> order[e] != order[f])
  }

  /** The sub-events in the order in which they are written: last part first. */
  function Blocks<P>(subs: seq<SubEvent<P>>, order: seq<nat>): seq<SubEvent<P>>
    requires |order| == |subs| && forall e :: 0 <= e < |order| ==> order[e] < |subs|
  {
    seq(|order|, k requires 0 <= k < |order| => subs[order[|order| - 1 - k]])
  }

  /** Both loops over the sub-events, in the order the parts dictate. */
  method ReorderAndMerge<P>(subs: seq<SubEvent<P>>, order: seq<nat>) returns (target: seq<Track<P>>)
    requires |subs| >= 1 && IsOrder(order, |subs|)
    requires forall e :: 0 <= e < |subs| ==> WellFormed(subs[e])
    ensures |subs| == 1 ==> target == subs[0].tracks
    ensures |subs| > 1 ==> AllWellFormed(Blocks(subs, order)) && Merged(Blocks(subs, order), target)
    ensures |subs| > 1 ==> AllDaughtersRight(Blocks(subs, order), target)
  {
    var entries := |subs|;
    if entries == 1 {
      return subs[0].tracks;
    }
    ghost var blocks := Blocks(subs, order);
    target := [];
    var nprimTot := 0;
    var entry := entries - 1;
    while entry >= 0
      invariant -1 <= entry < entries && AllWellFormed(blocks)
      invariant target == ConcatPrims(blocks, entries - 1 - entry) && nprimTot == PrimStart(blocks, entries - 1 - entry)
    {
      var index := order[entry];
      assert blocks[entries - 1 - entry] == subs[index];
      nprimTot := nprimTot + subs[index].nprim;
      ghost var before := target;
      for i := 0 to subs[index].nprim
        invariant target == before + PrimPart(subs[index], i)
      {
        var track := subs[index].tracks[i];
        if track.transported {
          track := track.(firstDaughter := -1, lastDaughter := -1);
        }
        target := target + [track];
      }
      entry := entry - 1;
    }
    PrimariesPlaced(blocks);
    target := AppendSecondaries(subs, order, target, nprimTot);
    MergedDaughters(blocks, target);
  }

  /** The second loop: the running offsets are the starts of the block's primaries and secondaries. */
  method AppendSecondaries<P>(subs: seq<SubEvent<P>>, order: seq<nat>, prims: seq<Track<P>>, nprimTot: nat)
    returns (target: seq<Track<P>>)
    requires |subs| >= 1 && IsOrder(order, |subs|) && AllWellFormed(Blocks(subs, order))
    requires nprimTot == PrimTotal(Blocks(subs, order))
    requires MergedUpTo(Blocks(subs, order), prims, 0, Blocks(subs, order)[0].nprim)
    ensures Merged(Blocks(subs, order), target)
  {
    var entries := |subs|;
    ghost var blocks := Blocks(subs, order);
    target := prims;
    var idelta1: int, idelta0: int := nprimTot, 0;
    var entry := entries - 1;
    hide MergedUpTo;
    while entry >= 0
      invariant -1 <= entry < entries
      invariant idelta0 == PrimStart(blocks, entries - 1 - entry) && idelta1 == SecStart(blocks, entries - 1 - entry)
      invariant MergedUpTo(blocks, target, entries - 1 - entry,
                           if entry >= 0 then blocks[entries - 1 - entry].nprim else 0)
    {
      var index := order[entry];
      ghost var j := entries - 1 - entry;
      assert blocks[j] == subs[index] && WellFormed(blocks[j]);
      var nprim, npart := subs[index].nprim, |subs[index].tracks|;
      idelta1 := idelta1 - nprim;
      for i := nprim to npart
        invariant MergedUpTo(blocks, target, j, i)
      {
        target := AppendOne(blocks, j, i, subs[index].tracks[i], nprim, idelta0, idelta1, target);
      }
      NextBlock(blocks, target, j);
      idelta0 := idelta0 + nprim;
      idelta1 := idelta1 + npart;
      entry := entry - 1;
    }
    AllBlocks(blocks, target);
  }

  /** One secondary: its mother is already in the list. */
  method AppendOne<P>(ghost blocks: seq<SubEvent<P>>, ghost j: nat, ghost i: nat, track0: Track<P>, nprim: nat,
                      idelta0: int, idelta1: int, target0: seq<Track<P>>)
    returns (target: seq<Track<P>>)
    requires AllWellFormed(blocks) && j < |blocks| && blocks[j].nprim <= i < |blocks[j].tracks|
    requires track0 == blocks[j].tracks[i] && nprim == blocks[j].nprim
    requires idelta0 == PrimStart(blocks, j) && idelta1 == SecStart(blocks, j) - nprim
    requires MergedUpTo(blocks, target0, j, i)
    ensures MergedUpTo(blocks, target, j, i + 1)
  {
    AppendKeeps(blocks, target0, j, i);
    assert WellFormed(blocks[j]);
    hide MergedUpTo, AllWellFormed, WellFormed, PrimStart, SecStart;
    target := target0;
    var track, cId := track0, track0.mother;
    if cId >= nprim {
      cId := cId + idelta1;
    } else {
      cId := cId + idelta0;
    }
    track := track.(mother := cId, firstDaughter := -1);
    var hwm := |target|;
    var mother := target[cId];
    if mother.firstDaughter == -1 {
      mother := mother.(firstDaughter := hwm);
    }
    target := target[cId := mother.(lastDaughter := hwm)] + [track];
  }

  // ---------------------------------------------------------------------------------------------
  // What follows for the merged list.

  /** A secondary stands after its mother. */
  lemma MotherBeforeDaughter<P>(blocks: seq<SubEvent<P>>, t: seq<Track<P>>, k: nat, i: nat)
    requires AllWellFormed(blocks) && Merged(blocks, t)
    requires k < |blocks| && blocks[k].nprim <= i < |blocks[k].tracks|
    ensures 0 <= IndexMap(blocks, k, i) < |t|
    ensures 0 <= t[IndexMap(blocks, k, i)].mother < IndexMap(blocks, k, i)
  {
    assert WellFormed(blocks[k]) && Placed(blocks, t, k, i);
    IndexRange(blocks, k, i);
    IndexRange(blocks, k, blocks[k].tracks[i].mother);
  }

  /** Every position of the merged list holds exactly one of the tracks. */
  lemma EachPositionOneTrack<P>(blocks: seq<SubEvent<P>>, t: seq<Track<P>>, x: nat) returns (k: nat, i: nat)
    requires AllWellFormed(blocks) && Merged(blocks, t) && x < |t|
    ensures k < |blocks| && i < |blocks[k].tracks| && t[x].body == blocks[k].tracks[i].body
    ensures forall k': nat, i': nat :: k' < |blocks| && i' < |blocks[k'].tracks| && IndexMap(blocks, k', i') == x ==>
              k' == k && i' == i
  {
    k, i := IndexOnto(blocks, x);
    assert WellFormed(blocks[k]) && Placed(blocks, t, k, i);
    forall k': nat, i': nat | k' < |blocks| && i' < |blocks[k'].tracks| && IndexMap(blocks, k', i') == x
      ensures k' == k && i' == i
    {
      IndexInjective(blocks, k, i, k', i');
    }
  }

  // ---------------------------------------------------------------------------------------------
  // Track references.

  datatype Ref<R> = Ref(trackID: int, rest: R)

  /** The references of one sub-event, with the counts its info record announces. */
  datatype RefBlock<R> = RefBlock(refs: seq<Ref<R>>, nprim: nat, npersistent: nat)

  function OffsetTrackIndex(trackID: int, nprimaries: int, primaryOffset: int, secondaryOffset: int): int {
    if trackID < 0 then trackID
    else trackID + if trackID < nprimaries then primaryOffset else secondaryOffset
  }

  function RefPrimStart<R>(blocks: seq<RefBlock<R>>, k: nat): (r: nat)
    requires k <= |blocks|
  {
    if k == 0 then 0 else RefPrimStart(blocks, k - 1) + blocks[k - 1].nprim
  }

  function PersistentCount<R>(blocks: seq<RefBlock<R>>, k: nat): (r: nat)
    requires k <= |blocks|
  {
    if k == 0 then 0 else PersistentCount(blocks, k - 1) + blocks[k - 1].npersistent
  }

  function MappedRef<R>(blocks: seq<RefBlock<R>>, k: nat, ref: Ref<R>): Ref<R>
    requires k < |blocks|
  {
    var secondary := RefPrimStart(blocks, |blocks|) + PersistentCount(blocks, k) - RefPrimStart(blocks, k + 1);
    ref.(trackID := OffsetTrackIndex(ref.trackID, blocks[k].nprim, RefPrimStart(blocks, k), secondary))
  }

  function MappedRefs<R>(blocks: seq<RefBlock<R>>, k: nat, n: nat): seq<Ref<R>>
    requires k < |blocks| && n <= |blocks[k].refs|
  {
    if n == 0 then [] else MappedRefs(blocks, k, n - 1) + [MappedRef(blocks, k, blocks[k].refs[n - 1])]
  }

  function ConcatRefs<R>(blocks: seq<RefBlock<R>>, k: nat): seq<Ref<R>>
    requires k <= |blocks|
  {
    if k == 0 then [] else ConcatRefs(blocks, k - 1) + MappedRefs(blocks, k - 1, |blocks[k - 1].refs|)
  }

  function RefBlocks<R>(subs: seq<RefBlock<R>>, order: seq<nat>): seq<RefBlock<R>>
    requires |order| == |subs| && forall e :: 0 <= e < |order| ==> order[e] < |subs|
  {
    seq(|order|, k requires 0 <= k < |order| => subs[order[|order| - 1 - k]])
  }

  /** A reference follows its track exactly when it names no track or a primary, or when the announced
      sizes of the blocks before it add up to their real sizes. */
  lemma RefFollowsTrack<P, R>(blocks: seq<SubEvent<P>>, refs: seq<RefBlock<R>>, k: nat, ref: Ref<R>)
    requires AllWellFormed(blocks) && |refs| == |blocks| && k < |blocks|
    requires forall j :: 0 <= j < |blocks| ==> refs[j].nprim == blocks[j].nprim
    requires ref.trackID < |blocks[k].tracks|
    ensures ref.trackID < 0 ==> MappedRef(refs, k, ref) == ref
    ensures ref.trackID >= 0 ==>
              (MappedRef(refs, k, ref).trackID == IndexMap(blocks, k, ref.trackID)
               <==> ref.trackID < blocks[k].nprim || PersistentCount(refs, k) == TrackCount(blocks, k))
  {
    SamePrimStart(blocks, refs, k);
    SamePrimStart(blocks, refs, k + 1);
    SamePrimStart(blocks, refs, |blocks|);
  }

  lemma {:induction false} SamePrimStart<P, R>(blocks: seq<SubEvent<P>>, refs: seq<RefBlock<R>>, k: nat)
    requires |refs| == |blocks| && k <= |blocks|
    requires forall j :: 0 <= j < |blocks| ==> refs[j].nprim == blocks[j].nprim
    ensures RefPrimStart(refs, k) == PrimStart(blocks, k)
  {
    if k > 0 {
      SamePrimStart(blocks, refs, k - 1);
    }
  }

  /** With the real sizes announced, every reference follows its track. */
  lemma RefsFollowTracks<P, R>(blocks: seq<SubEvent<P>>, refs: seq<RefBlock<R>>, k: nat, ref: Ref<R>)
    requires AllWellFormed(blocks) && |refs| == |blocks| && k < |blocks|
    requires forall j :: 0 <= j < |blocks| ==>
               refs[j].nprim == blocks[j].nprim && refs[j].npersistent == |blocks[j].tracks|
    requires 0 <= ref.trackID < |blocks[k].tracks|
    ensures MappedRef(refs, k, ref).trackID == IndexMap(blocks, k, ref.trackID)
  {
    SameCount(blocks, refs, k);
    RefFollowsTrack(blocks, refs, k, ref);
  }

  lemma {:induction false} SameCount<P, R>(blocks: seq<SubEvent<P>>, refs: seq<RefBlock<R>>, k: nat)
    requires |refs| == |blocks| && k <= |blocks|
    requires forall j :: 0 <= j < |blocks| ==> refs[j].npersistent == |blocks[j].tracks|
    ensures PersistentCount(refs, k) == TrackCount(blocks, k)
  {
    if k > 0 {
      SameCount(blocks, refs, k - 1);
    }
  }

  // Where the references of block k start.
  function RefStart<R>(refs: seq<RefBlock<R>>, k: nat): nat
    requires k <= |refs|
  {
    if k == 0 then 0 else RefStart(refs, k - 1) + |refs[k - 1].refs|
  }

  lemma {:induction false} MappedRefsAt<R>(refs: seq<RefBlock<R>>, k: nat, n: nat, i: nat)
    requires k < |refs| && n <= |refs[k].refs|
    ensures |MappedRefs(refs, k, n)| == n
    ensures i < n ==> MappedRefs(refs, k, n)[i] == MappedRef(refs, k, refs[k].refs[i])
  {
    if n > 0 {
      MappedRefsAt(refs, k, n - 1, i);
    }
  }

  lemma {:induction false} ConcatRefsAt<R>(refs: seq<RefBlock<R>>, n: nat, k: nat, i: nat)
    requires n <= |refs|
    ensures |ConcatRefs(refs, n)| == RefStart(refs, n)
    ensures k < n && i < |refs[k].refs| ==>
              RefStart(refs, k) + i < RefStart(refs, n)
              && ConcatRefs(refs, n)[RefStart(refs, k) + i] == MappedRef(refs, k, refs[k].refs[i])
  {
    if n > 0 {
      ConcatRefsAt(refs, n - 1, k, i);
      MappedRefsAt(refs, n - 1, |refs[n - 1].refs|, i);
    }
  }

  /** References to tracks of the same part, with the real sizes of the parts announced. */
  ghost predicate Announced<P, R>(refs: seq<RefBlock<R>>, blocks: seq<SubEvent<P>>) {
    && |refs| == |blocks|
    && (forall k :: 0 <= k < |refs| ==> refs[k].nprim == blocks[k].nprim && refs[k].npersistent == |blocks[k].tracks|)
    && (forall k, i :: 0 <= k < |refs| && 0 <= i < |refs[k].refs| ==> refs[k].refs[i].trackID < |blocks[k].tracks|)
  }

  /** Every reference is in the list at its place, and names the position in the merged tracks of the track
      it was recorded for, or none if it named none. */
  ghost predicate RefsFollow<P, R>(refs: seq<RefBlock<R>>, blocks: seq<SubEvent<P>>, target: seq<Ref<R>>)
    requires |refs| == |blocks|
  {
    && |target| == RefStart(refs, |refs|)
    && forall k: nat, i: nat :: k < |refs| && i < |refs[k].refs| ==> RefFollows(refs, blocks, target, k, i)
  }

  ghost predicate RefFollows<P, R>(refs: seq<RefBlock<R>>, blocks: seq<SubEvent<P>>, target: seq<Ref<R>>, k: nat,
                                   i: nat)
    requires |refs| == |blocks| && k < |refs| && i < |refs[k].refs|
  {
    var x, ref := RefStart(refs, k) + i, refs[k].refs[i];
    && x < |target| && target[x].rest == ref.rest
    && (if ref.trackID < 0 then target[x].trackID == ref.trackID
        else ref.trackID < |blocks[k].tracks| && target[x].trackID == IndexMap(blocks, k, ref.trackID))
  }

  lemma AllRefsFollow<P, R>(refs: seq<RefBlock<R>>, blocks: seq<SubEvent<P>>)
    requires AllWellFormed(blocks) && Announced(refs, blocks)
    ensures RefsFollow(refs, blocks, ConcatRefs(refs, |refs|))
  {
    hide MappedRef, IndexMap;
    ConcatRefsAt(refs, |refs|, 0, 0);
    forall k: nat, i: nat | k < |refs| && i < |refs[k].refs|
      ensures RefFollows(refs, blocks, ConcatRefs(refs, |refs|), k, i)
    {
      ConcatRefsAt(refs, |refs|, k, i);
      MappedRest(refs, k, refs[k].refs[i]);
      if refs[k].refs[i].trackID >= 0 {
        RefsFollowTracks(blocks, refs, k, refs[k].refs[i]);
      }
    }
  }

  lemma MappedRest<R>(refs: seq<RefBlock<R>>, k: nat, ref: Ref<R>)
    requires k < |refs|
    ensures MappedRef(refs, k, ref).rest == ref.rest
    ensures ref.trackID < 0 ==> MappedRef(refs, k, ref) == ref
  {}

  // What is announced in arrival order is announced in writing order.
  lemma AnnouncedInOrder<P, R>(subs: seq<RefBlock<R>>, tracks: seq<SubEvent<P>>, order: seq<nat>)
    requires Announced(subs, tracks) && IsOrder(order, |subs|)
    ensures Announced(RefBlocks(subs, order), Blocks(tracks, order))
  {}

  /** The references of all parts, last part first. When the announced sizes are those of the parts' tracks,
      every reference written names the position of its own track in the merged list. */
  method RemapTrackIdsAndMerge<P, R>(subs: seq<RefBlock<R>>, order: seq<nat>, ghost tracks: seq<SubEvent<P>>)
    returns (target: seq<Ref<R>>)
    requires |subs| >= 1 && IsOrder(order, |subs|) && |tracks| == |subs|
    ensures |subs| == 1 ==> target == subs[0].refs
    ensures |subs| > 1 ==> target == ConcatRefs(RefBlocks(subs, order), |subs|)
    ensures |subs| > 1 && Announced(subs, tracks) && AllWellFormed(Blocks(tracks, order)) ==>
              RefsFollow(RefBlocks(subs, order), Blocks(tracks, order), target)
  {
    target := RemapRefs(subs, order);
    hide Announced, AllWellFormed, RefsFollow;
    if |subs| > 1 && Announced(subs, tracks) && AllWellFormed(Blocks(tracks, order)) {
      AnnouncedInOrder(subs, tracks, order);
      AllRefsFollow(RefBlocks(subs, order), Blocks(tracks, order));
    }
  }

  // The loops.
  method RemapRefs<R>(subs: seq<RefBlock<R>>, order: seq<nat>) returns (target: seq<Ref<R>>)
    requires |subs| >= 1 && IsOrder(order, |subs|)
    ensures |subs| == 1 ==> target == subs[0].refs
    ensures |subs| > 1 ==> target == ConcatRefs(RefBlocks(subs, order), |subs|)
  {
    var entries := |subs|;
    if entries == 1 {
      return subs[0].refs;
    }
    ghost var blocks := RefBlocks(subs, order);
    var nprimTot := 0;
    for entry := 0 to entries
      invariant nprimTot == RefPrimStart(subs, entry)
    {
      nprimTot := nprimTot + subs[entry].nprim;
    }
    TotalInAnyOrder(subs, order);
    target := [];
    var idelta0: int, idelta1: int := 0, nprimTot;
    var entry := entries - 1;
    while entry >= 0
      invariant -1 <= entry < entries
      invariant idelta0 == RefPrimStart(blocks, entries - 1 - entry)
      invariant idelta1
                == nprimTot + PersistentCount(blocks, entries - 1 - entry) - RefPrimStart(blocks, entries - 1 - entry)
      invariant target == ConcatRefs(blocks, entries - 1 - entry)
    {
      var index := order[entry];
      ghost var k := entries - 1 - entry;
      assert blocks[k] == subs[index];
      var nprim := subs[index].nprim;
      idelta1 := idelta1 - nprim;
      target := RemapBlock(blocks, k, subs[index], idelta0, idelta1, target);
      idelta0 := idelta0 + nprim;
      idelta1 := idelta1 + subs[index].npersistent;
      entry := entry - 1;
    }
  }

  // One part.
  method RemapBlock<R>(ghost blocks: seq<RefBlock<R>>, ghost k: nat, part: RefBlock<R>, idelta0: int, idelta1: int,
                       before: seq<Ref<R>>) returns (target: seq<Ref<R>>)
    requires k < |blocks| && part == blocks[k] && idelta0 == RefPrimStart(blocks, k)
    requires idelta1 == RefPrimStart(blocks, |blocks|) + PersistentCount(blocks, k) - RefPrimStart(blocks, k + 1)
    ensures target == before + MappedRefs(blocks, k, |blocks[k].refs|)
  {
    target := before;
    for i := 0 to |part.refs|
      invariant target == before + MappedRefs(blocks, k, i)
    {
      var data := part.refs[i];
      data := data.(trackID := OffsetTrackIndex(data.trackID, part.nprim, idelta0, idelta1));
      target := target + [data];
    }
  }

  // The primaries add up to the same number in arrival order and in writing order.

  function OrderSum<R>(subs: seq<RefBlock<R>>, order: seq<nat>): nat
    requires forall e :: 0 <= e < |order| ==> order[e] < |subs|
  {
    if order == [] then 0 else OrderSum(subs, order[..|order| - 1]) + subs[order[|order| - 1]].nprim
  }

  function Without(order: seq<nat>, e: nat): seq<nat>
    requires e < |order|
  {
    order[..e] + order[e + 1..]
  }

  lemma {:induction false} OrderSumWithout<R>(subs: seq<RefBlock<R>>, order: seq<nat>, e: nat)
    requires e < |order| && forall f :: 0 <= f < |order| ==> order[f] < |subs|
    ensures OrderSum(subs, order) == subs[order[e]].nprim + OrderSum(subs, Without(order, e))
  {
    var init := order[..|order| - 1];
    if e == |order| - 1 {
      assert Without(order, e) == init;
    } else {
      OrderSumWithout(subs, init, e);
      assert Without(order, e) == Without(init, e) + [order[|order| - 1]];
      assert Without(order, e)[..|order| - 2] == Without(init, e);
    }
  }

  lemma WithoutLast(order: seq<nat>, n: nat, e: nat)
    requires n > 0 && IsOrder(order, n) && e < n && order[e] == n - 1
    ensures IsOrder(Without(order, e), n - 1)
  {
    var less := Without(order, e);
    forall f | 0 <= f < n - 1
      ensures less[f] < n - 1
    {
      assert less[f] == order[if f < e then f else f + 1];
    }
  }

  lemma {:induction false} OrderSumTotal<R>(subs: seq<RefBlock<R>>, order: seq<nat>, n: nat)
    requires n <= |subs| && IsOrder(order, n)
    ensures OrderSum(subs, order) == RefPrimStart(subs, n)
  {
    if n > 0 {
      hide OrderSum;
      Pigeonhole(order, n, n - 1);
      var e :| 0 <= e < n && order[e] == n - 1;
      OrderSumWithout(subs, order, e);
      WithoutLast(order, n, e);
      OrderSumTotal(subs, Without(order, e), n - 1);
    }
  }

  lemma {:induction false} DistinctCount(s: seq<nat>) returns (values: set<nat>)
    requires forall e, f :: 0 <= e < f < |s| ==> s[e] != s[f]
    ensures (forall v :: v in values <==> v in s) && |values| == |s|
  {
    if s == [] {
      values := {};
    } else {
      values := DistinctCount(s[..|s| - 1]);
      values := values + {s[|s| - 1]};
    }
  }

  lemma {:induction false} BelowCount(values: set<nat>, n: nat)
    requires forall v :: v in values ==> v < n
    ensures |values| <= n
  {
    if n == 0 {
      assert values == {};
    } else {
      BelowCount(values - {n - 1}, n - 1);
    }
  }

  // n different numbers below n are all of them.
  lemma Pigeonhole(order: seq<nat>, n: nat, v: nat)
    requires IsOrder(order, n) && v < n
    ensures v in order
  {
    if v !in order {
      var values := DistinctCount(order);
      AvoidCount(values, n, v);
    }
  }

  lemma {:induction false} AvoidCount(values: set<nat>, n: nat, v: nat)
    requires v < n && (forall x :: x in values ==> x < n) && v !in values
    ensures |values| < n
  {
    if v == n - 1 {
      BelowCount(values, n - 1);
    } else {
      AvoidCount(values - {n - 1}, n - 1, v);
    }
  }

  lemma {:induction false} ReversedSum<R>(subs: seq<RefBlock<R>>, order: seq<nat>, k: nat)
    requires IsOrder(order, |subs|) && k <= |subs|
    ensures RefPrimStart(RefBlocks(subs, order), k) + OrderSum(subs, order[..|subs| - k]) == OrderSum(subs, order)
  {
    if k == 0 {
      assert order[..|subs|] == order;
    } else {
      ReversedSum(subs, order, k - 1);
      var init := order[..|subs| - (k - 1)];
      assert init[..|init| - 1] == order[..|subs| - k];
    }
  }

  lemma TotalInAnyOrder<R>(subs: seq<RefBlock<R>>, order: seq<nat>)
    requires IsOrder(order, |subs|)
    ensures RefPrimStart(RefBlocks(subs, order), |subs|) == RefPrimStart(subs, |subs|)
  {
    ReversedSum(subs, order, |subs|);
    OrderSumTotal(subs, order, |subs|);
  }

  // ---------------------------------------------------------------------------------------------
  // From part numbers to the order.

  /** Parts 1..n in any order of arrival; entry p of the result is where part p + 1 arrived. */
  method OrderOfParts(parts: seq<nat>) returns (order: seq<nat>)
    requires forall e :: 0 <= e < |parts| ==> 1 <= parts[e] <= |parts|
    requires forall e, f :: 0 <= e < f < |parts| ==> parts[e] != parts[f]
    ensures IsOrder(order, |parts|)
    ensures forall p :: 0 <= p < |parts| ==> parts[order[p]] == p + 1
  {
    var entries := |parts|;
    var slots := new nat[entries](_ => 0);
    var entry := entries - 1;
    while entry >= 0
      invariant -1 <= entry < entries
      invariant forall e :: entry < e < entries ==> slots[parts[e] - 1] == e
    {
      slots[parts[entry] - 1] := entry;
      entry := entry - 1;
    }
    order := slots[..];
    forall p | 0 <= p < entries
      ensures order[p] < entries && parts[order[p]] == p + 1
    {
      var lowered := seq(entries, e requires 0 <= e < entries => parts[e] - 1 as nat);
      Pigeonhole(lowered, entries, p);
    }
  }
}
