// From the primaries of an event, through chunks, workers and arrival in any order, to the merged list.

module EndToEnd {
  import opened CompletenessTest
  import opened EventMerger
  import opened PrimaryServer
  import opened TrackMerge

  /** A worker returns the primaries of its chunk first and in order; what else it returns is free. */
  ghost predicate WorkerResult<P>(sub: SubEvent<P>, chunk: seq<P>) {
    && WellFormed(sub) && sub.nprim == |chunk|
    && forall i :: 0 <= i < |chunk| ==> sub.tracks[i].body == chunk[i]
  }

  /** One block per part, the last part first. */
  ghost predicate BlocksOf<P>(blocks: seq<SubEvent<P>>, prims: seq<P>, g: nat) {
    forall k :: 0 <= k < |blocks| ==> WorkerResult(blocks[k], Cut(prims, g, |blocks| - 1 - k))
  }

  // The primaries of the first k blocks are those of the last k parts.
  lemma {:induction false} BlockStarts<P>(blocks: seq<SubEvent<P>>, prims: seq<P>, g: nat, k: nat)
    requires BlocksOf(blocks, prims, g) && k <= |blocks|
    ensures PrimStart(blocks, k) <= |FromPart(prims, g, |blocks|)|
    ensures FromPart(prims, g, |blocks|)
            == FromPart(prims, g, |blocks|)[..PrimStart(blocks, k)] + FromPart(prims, g, |blocks| - k)
  {
    var all := FromPart(prims, g, |blocks|);
    if k == 0 {
      assert all[..0] == [];
    } else {
      BlockStarts(blocks, prims, g, k - 1);
      var chunk, rest := Cut(prims, g, |blocks| - k), FromPart(prims, g, |blocks| - k);
      assert WorkerResult(blocks[k - 1], chunk);
      assert FromPart(prims, g, |blocks| - (k - 1)) == chunk + rest;
      MoreOfPrefix(all, PrimStart(blocks, k - 1), chunk, rest);
    }
  }

  lemma MoreOfPrefix<T>(all: seq<T>, n: nat, chunk: seq<T>, rest: seq<T>)
    requires n <= |all| && all == all[..n] + (chunk + rest)
    ensures n + |chunk| <= |all| && all == all[..n + |chunk|] + rest
  {
    assert all[..n + |chunk|] == all[..n] + chunk;
  }

  lemma BlockPrimary<P>(blocks: seq<SubEvent<P>>, prims: seq<P>, g: nat, k: nat, i: nat)
    requires BlocksOf(blocks, prims, g) && k < |blocks| && i < blocks[k].nprim && WellFormed(blocks[k])
    ensures PrimStart(blocks, k) + i < |FromPart(prims, g, |blocks|)|
    ensures blocks[k].tracks[i].body == FromPart(prims, g, |blocks|)[PrimStart(blocks, k) + i]
  {
    BlockStarts(blocks, prims, g, k);
    var chunk := Cut(prims, g, |blocks| - 1 - k);
    assert WorkerResult(blocks[k], chunk);
    assert FromPart(prims, g, |blocks| - k) == chunk + FromPart(prims, g, |blocks| - k - 1);
  }

  /** The merged list starts with exactly the primaries of the event, in their original order. */
  lemma MergedPrimaries<P>(blocks: seq<SubEvent<P>>, prims: seq<P>, g: nat, t: seq<Track<P>>)
    requires g >= 1 && |blocks| == NumberOfParts(|prims|, g) && BlocksOf(blocks, prims, g)
    requires AllWellFormed(blocks) && Merged(blocks, t)
    ensures PrimTotal(blocks) == |prims| <= |t|
    ensures forall x :: 0 <= x < |prims| ==> t[x].body == prims[x]
  {
    PartsCoverEvent(prims, g);
    BlockStarts(blocks, prims, g, |blocks|);
    PrimariesFit(blocks, t);
    AllPrimaries(prims, g, |blocks|, PrimTotal(blocks));
    forall x | 0 <= x < |prims|
      ensures t[x].body == prims[x]
    {
      MergedPrimary(blocks, prims, g, t, x);
    }
  }

  lemma AllPrimaries<P>(prims: seq<P>, g: nat, n: nat, total: nat)
    requires FromPart(prims, g, n) == prims && total <= |prims| && prims == prims[..total] + FromPart(prims, g, 0)
    ensures total == |prims|
  {}

  lemma MergedPrimary<P>(blocks: seq<SubEvent<P>>, prims: seq<P>, g: nat, t: seq<Track<P>>, x: nat)
    requires BlocksOf(blocks, prims, g) && FromPart(prims, g, |blocks|) == prims && PrimTotal(blocks) == |prims|
    requires AllWellFormed(blocks) && Merged(blocks, t) && x < |prims| <= |t| && |t| == TrackCount(blocks, |blocks|)
    ensures t[x].body == prims[x]
  {
    hide *;
    var k, i := IndexOnto(blocks, x);
    IndexRange(blocks, k, i);
    PlacedAt(blocks, t, k, i);
    BlockPrimary(blocks, prims, g, k, i);
    IndexOfPrimary(blocks, k, i);
  }

  lemma IndexOfPrimary<P>(blocks: seq<SubEvent<P>>, k: nat, i: nat)
    requires k < |blocks| && i < blocks[k].nprim
    ensures IndexMap(blocks, k, i) == PrimStart(blocks, k) + i
  {}

  lemma PlacedAt<P>(blocks: seq<SubEvent<P>>, t: seq<Track<P>>, k: nat, i: nat)
    requires AllWellFormed(blocks) && Merged(blocks, t) && k < |blocks| && i < |blocks[k].tracks|
    ensures 0 <= IndexMap(blocks, k, i) < |t| && t[IndexMap(blocks, k, i)].body == blocks[k].tracks[i].body
    ensures WellFormed(blocks[k])
  {
    assert WellFormed(blocks[k]);
    assert Placed(blocks, t, k, i);
  }

  lemma PrimariesFit<P>(blocks: seq<SubEvent<P>>, t: seq<Track<P>>)
    requires AllWellFormed(blocks) && Merged(blocks, t)
    ensures PrimTotal(blocks) <= |t| && |t| == TrackCount(blocks, |blocks|)
  {
    StartsMonotone(blocks, 0, |blocks|);
  }

  // ---------------------------------------------------------------------------------------------
  // The flush of one event.

  // As many messages as parts.
  lemma PartsCount<D>(messages: seq<Message<D>>, e: nat, n: nat)
    requires Holds(messages, e, Full(n))
    ensures |messages| == n
  {
    var numbers := seq(|messages|, x requires 0 <= x < |messages| => messages[x].part);
    var values := DistinctCount(numbers);
    forall p
      ensures p in values <==> p in Parts(messages)
    {
      if p in Parts(messages) {
        var m :| m in messages && m.part == p;
        var x :| 0 <= x < |messages| && messages[x] == m;
        assert numbers[x] == p;
      }
    }
    assert values == Full(n);
    FullSize(n);
  }

  lemma {:induction false} FullSize(n: nat)
    ensures |Full(n)| == n
  {
    if n > 0 {
      FullSize(n - 1);
    }
  }

  /** t starts with exactly these primaries, in order. */
  ghost predicate StartsWith<P>(t: seq<Track<P>>, prims: seq<P>) {
    |prims| <= |t| && forall x :: 0 <= x < |prims| ==> t[x].body == prims[x]
  }

  /** The tracks of an event: the primaries first, and then every secondary that some worker returned for one
      of the chunks, each at its place. */
  ghost predicate EventTracks<P(!new)>(t: seq<Track<P>>, prims: seq<P>, g: nat)
    requires g >= 1
  {
    && StartsWith(t, prims)
    && exists blocks :: MadeOf(t, blocks, prims, g)
  }

  ghost predicate MadeOf<P>(t: seq<Track<P>>, blocks: seq<SubEvent<P>>, prims: seq<P>, g: nat)
    requires g >= 1
  {
    && |blocks| == NumberOfParts(|prims|, g) && BlocksOf(blocks, prims, g) && PrimTotal(blocks) == |prims|
    && if |blocks| == 1 then t == blocks[0].tracks else AllWellFormed(blocks) && Merged(blocks, t)
  }

  /** What the merger writes for an event whose parts are all here: whatever the chunk size, the
      workers and the order of arrival, it starts with the event's primaries, each once, in order. */
  method MergeEvent<P(!new)>(messages: seq<Message<SubEvent<P>>>, ghost e: nat, ghost prims: seq<P>, ghost g: nat)
    returns (t: seq<Track<P>>)
    requires g >= 1 && Holds(messages, e, Full(NumberOfParts(|prims|, g)))
    requires forall m :: m in messages ==> m.part >= 1 && WorkerResult(m.data, Cut(prims, g, m.part - 1))
    ensures EventTracks(t, prims, g)
  {
    ghost var n := NumberOfParts(|prims|, g);
    PartsCount(messages, e, n);
    var parts := seq(|messages|, x requires 0 <= x < |messages| => messages[x].part);
    var subs := seq(|messages|, x requires 0 <= x < |messages| => messages[x].data);
    forall x | 0 <= x < |parts|
      ensures 1 <= parts[x] <= |parts|
      ensures WellFormed(subs[x]) && WorkerResult(subs[x], Cut(prims, g, parts[x] - 1))
    {
      assert messages[x] in messages;
      assert parts[x] in Parts(messages);
    }
    var order := OrderOfParts(parts);
    t := ReorderAndMerge(subs, order);
    if |subs| > 1 {
      InOrder(subs, parts, order, prims, g);
      MergedPrimaries(Blocks(subs, order), prims, g, t);
      assert MadeOf(t, Blocks(subs, order), prims, g);
    } else {
      OnlyPart(subs, parts, prims, g);
      assert MadeOf(t, subs, prims, g);
    }
  }

  lemma InOrder<P>(subs: seq<SubEvent<P>>, parts: seq<nat>, order: seq<nat>, prims: seq<P>, g: nat)
    requires |parts| == |subs| && IsOrder(order, |subs|)
    requires forall p :: 0 <= p < |parts| ==> parts[order[p]] == p + 1
    requires forall x :: 0 <= x < |subs| ==> parts[x] >= 1 && WorkerResult(subs[x], Cut(prims, g, parts[x] - 1))
    ensures BlocksOf(Blocks(subs, order), prims, g)
  {
    hide WorkerResult, Cut;
    var blocks := Blocks(subs, order);
    forall k | 0 <= k < |blocks|
      ensures WorkerResult(blocks[k], Cut(prims, g, |blocks| - 1 - k))
    {
      var x := order[|subs| - 1 - k];
      assert blocks[k] == subs[x] && parts[x] == |subs| - k;
    }
  }

  lemma OnlyPart<P>(subs: seq<SubEvent<P>>, parts: seq<nat>, prims: seq<P>, g: nat)
    requires g >= 1 && |subs| == |parts| == 1 == NumberOfParts(|prims|, g) && parts[0] == 1
    requires WorkerResult(subs[0], Cut(prims, g, 0))
    ensures StartsWith(subs[0].tracks, prims) && BlocksOf(subs, prims, g) && PrimTotal(subs) == |prims|
  {
    OnlyCut(prims, g);
    assert PrimTotal(subs) == PrimStart(subs, 0) + subs[0].nprim;
    hide Cut, NumberOfParts;
  }

  lemma OnlyCut<P>(prims: seq<P>, g: nat)
    requires g >= 1 && NumberOfParts(|prims|, g) == 1
    ensures Cut(prims, g, 0) == prims
  {
    PartsCoverEvent(prims, g);
    hide NumberOfParts;
    assert FromPart(prims, g, 1) == Cut(prims, g, 0) + FromPart(prims, g, 0);
    assert FromPart(prims, g, 0) == [];
  }

  // ---------------------------------------------------------------------------------------------
  // What the server hands out is what the merger counts on.

  ghost function PlanOf<P>(job: Job<P>): Plan
    requires job.g >= 1
  {
    Plan(job.maxEvents, e => if e == 0 then 1 else PartCount(job, e))
  }

  /** The message a worker sends for a chunk. */
  predicate Answers<P, D>(m: Message<D>, c: Chunk<P>) {
    m.eventID == c.eventID && m.part == c.part && m.nparts == c.nparts && m.maxEvents == c.maxEvents
  }

  // Position of part p + 1 of event e in the full schedule.
  lemma {:induction false} ScheduleAt<P>(job: Job<P>, n: nat, e: nat, p: nat) returns (x: nat)
    requires job.g >= 1 && 1 <= e <= n && p < PartCount(job, e)
    ensures x < |EventsTo(job, n)| && EventsTo(job, n)[x] == ChunkOf(job, e, p)
  {
    var before, last := EventsTo(job, n - 1), PartsOf(job, n, PartCount(job, n));
    assert EventsTo(job, n) == before + last;
    hide *;
    if e < n {
      x := ScheduleAt(job, n - 1, e, p);
      AppendedAt(before, last, x);
    } else {
      PartAt(job, e, PartCount(job, e), p);
      x := |before| + p;
      AppendedAt(before, last, x);
    }
  }

  lemma AppendedAt<T>(a: seq<T>, b: seq<T>, x: nat)
    requires x < |a| + |b|
    ensures (a + b)[x] == if x < |a| then a[x] else b[x - |a|]
  {}

  lemma {:induction false} PartAt<P>(job: Job<P>, e: nat, k: nat, p: nat)
    requires job.g >= 1 && e >= 1 && p < k
    ensures |PartsOf(job, e, k)| == k && PartsOf(job, e, k)[p] == ChunkOf(job, e, p)
  {
    PartsGrow(job, e, k, k);
    PartsGrow(job, e, k - 1, k - 1);
    if p < k - 1 {
      PartAt(job, e, k - 1, p);
    }
  }

  // Every entry of the schedule is such a part, and they differ.
  lemma {:induction false} ScheduleEntry<P>(job: Job<P>, n: nat, x: nat) returns (e: nat, p: nat)
    requires job.g >= 1 && x < |EventsTo(job, n)|
    ensures 1 <= e <= n && p < PartCount(job, e) && EventsTo(job, n)[x] == ChunkOf(job, e, p)
  {
    if x < |EventsTo(job, n - 1)| {
      e, p := ScheduleEntry(job, n - 1, x);
    } else {
      e, p := n, x - |EventsTo(job, n - 1)|;
      PartsGrow(job, e, PartCount(job, e), PartCount(job, e));
      PartAt(job, e, PartCount(job, e), p);
    }
  }

  /** The schedule goes through the events in order, and through the parts of each in order. */
  lemma {:induction false} ScheduleOrdered<P>(job: Job<P>, n: nat, x: nat, y: nat)
    requires job.g >= 1 && x < y < |EventsTo(job, n)|
    ensures var c, d := EventsTo(job, n)[x], EventsTo(job, n)[y];
            c.eventID < d.eventID || (c.eventID == d.eventID && c.part < d.part)
  {
    hide NumberOfParts, FirstNonEmpty, Cut, PartsOf, Prims, PartCount;
    var before := |EventsTo(job, n - 1)|;
    if y < before {
      ScheduleOrdered(job, n - 1, x, y);
    } else {
      PartsGrow(job, n, PartCount(job, n), PartCount(job, n));
      PartAt(job, n, PartCount(job, n), y - before);
      if x < before {
        var e, p := ScheduleEntry(job, n - 1, x);
      } else {
        PartAt(job, n, PartCount(job, n), x - before);
      }
    }
  }

  /** The workers' messages for all chunks of a run, in any order of arrival, are every part of every
      event once: what the merger's run needs. */
  lemma AnyArrivalDelivers<P, D>(job: Job<P>, messages: seq<Message<D>>, arrival: seq<nat>)
    requires job.g >= 1 && IsOrder(arrival, |EventsTo(job, job.maxEvents)|) && |messages| == |arrival|
    requires forall x :: 0 <= x < |messages| ==> Answers(messages[x], EventsTo(job, job.maxEvents)[arrival[x]])
    ensures Deliveries(messages, PlanOf(job))
  {
    var log, plan := EventsTo(job, job.maxEvents), PlanOf(job);
    forall x | 0 <= x < |messages|
      ensures Planned(messages[x], plan)
    {
      var e, p := ScheduleEntry(job, job.maxEvents, arrival[x]);
    }
    forall x, y | 0 <= x < y < |messages|
      ensures !SamePart(messages[x], messages[y])
    {
      if arrival[x] < arrival[y] {
        ScheduleOrdered(job, job.maxEvents, arrival[x], arrival[y]);
      } else {
        ScheduleOrdered(job, job.maxEvents, arrival[y], arrival[x]);
      }
    }
    forall e, p | 1 <= e <= plan.maxEvents && 1 <= p <= plan.nparts(e)
      ensures Delivered(messages, |messages|, e, p)
    {
      var z := ScheduleAt(job, job.maxEvents, e, p - 1);
      Pigeonhole(arrival, |log|, z);
      var x :| 0 <= x < |arrival| && arrival[x] == z;
      assert Answers(messages[x], log[z]);
    }
  }

  // ---------------------------------------------------------------------------------------------
  // The whole pipeline.

  /** What became of an event. */
  datatype Output<P> = Dropped | Written(tracks: seq<Track<P>>)

  /** What the workers return: for the k-th part handed out, a result made from its particles. */
  ghost predicate Honest<P(!new)>(job: Job<P>, worker: (nat, Chunk<P>) -> SubEvent<P>)
    requires job.g >= 1
  {
    var chunks := EventsTo(job, job.maxEvents);
    forall k: nat :: k < |chunks| ==> WorkerResult(worker(k, chunks[k]), chunks[k].particles)
  }

  function Sent<P, D>(c: Chunk<P>, data: D): Message<D> { Message(c.eventID, c.part, c.nparts, c.maxEvents, data) }

  /** The message for the part handed out at place k. */
  ghost predicate SentFor<P(!new)>(m: Message<SubEvent<P>>, job: Job<P>, worker: (nat, Chunk<P>) -> SubEvent<P>, k: nat)
    requires job.g >= 1 && k < |EventsTo(job, job.maxEvents)|
  {
    var c := EventsTo(job, job.maxEvents)[k];
    m == Sent(c, worker(k, c))
  }

  // A message of event e carries what a worker made of its chunk.
  lemma SentIsResult<P(!new)>(m: Message<SubEvent<P>>, job: Job<P>, worker: (nat, Chunk<P>) -> SubEvent<P>, k: nat)
    requires job.g >= 1 && k < |EventsTo(job, job.maxEvents)| && SentFor(m, job, worker, k) && Honest(job, worker)
    ensures m.eventID >= 1 && m.part >= 1 && WorkerResult(m.data, Cut(Prims(job, m.eventID), job.g, m.part - 1))
  {
    var e, p := ScheduleEntry(job, job.maxEvents, k);
    hide WorkerResult, Cut, EventsTo, PartCount, Prims;
    assert WorkerResult(worker(k, EventsTo(job, job.maxEvents)[k]), EventsTo(job, job.maxEvents)[k].particles);
  }

  ghost predicate AllSent<P(!new)>(messages: seq<Message<SubEvent<P>>>, job: Job<P>,
                                   worker: (nat, Chunk<P>) -> SubEvent<P>, arrival: seq<nat>)
    requires job.g >= 1
  {
    && |messages| == |arrival|
    && forall x :: 0 <= x < |messages| ==>
         arrival[x] < |EventsTo(job, job.maxEvents)| && SentFor(messages[x], job, worker, arrival[x])
  }

  /** The tracks of event x + 1: those of the primaries the generator drew for it. */
  ghost predicate RightEvent<P(!new)>(t: seq<Track<P>>, job: Job<P>, x: nat)
    requires job.g >= 1
  {
    exists prims :: Generated(job.draw, x, prims) && EventTracks(t, prims, job.g)
  }

  /** What the events of a log come to. */
  ghost predicate OutputsRight<P(!new)>(outputs: seq<Output<P>>, job: Job<P>, n: nat)
    requires job.g >= 1 && n <= |outputs|
  {
    forall x :: 0 <= x < n && outputs[x].Written? ==> RightEvent(outputs[x].tracks, job, x)
  }

  predicate AllWritten<P>(outputs: seq<Output<P>>) { forall x :: 0 <= x < |outputs| ==> outputs[x].Written? }

  lemma PlannedParts<P>(job: Job<P>, e: nat)
    requires job.g >= 1 && e >= 1
    ensures PlanOf(job).nparts(e) == NumberOfParts(|Prims(job, e)|, job.g)
  {}

  lemma HoldsEvent<D>(messages: seq<Message<D>>, e: nat, parts: set<nat>)
    requires Holds(messages, e, parts)
    ensures forall m :: m in messages ==> m.eventID == e
  {}

  // A flushed event is ready to be merged.
  lemma FlushedIsResult<P(!new)>(job: Job<P>, worker: (nat, Chunk<P>) -> SubEvent<P>, arrival: seq<nat>,
                                 messages: seq<Message<SubEvent<P>>>,
                                 log: seq<Flushed<SubEvent<P>>>, discards: seq<Message<SubEvent<P>>> -> bool, x: nat)
    requires job.g >= 1 && Honest(job, worker) && AllSent(messages, job, worker, arrival)
    requires x < |log| && LogRight(log, PlanOf(job), discards) && AllFrom(log, messages)
    ensures Holds(log[x].messages, x + 1, Full(NumberOfParts(|Prims(job, x + 1)|, job.g)))
    ensures forall m :: m in log[x].messages ==>
              m.part >= 1 && WorkerResult(m.data, Cut(Prims(job, x + 1), job.g, m.part - 1))
    ensures log[x].written <==> !discards(log[x].messages)
  {
    hide WorkerResult, Cut, EventsTo, Prims, SentFor, PlanOf, Holds, NumberOfParts, Honest, PartCount;
    PlannedParts(job, x + 1);
    assert EntryRight(log[x], x + 1, PlanOf(job), discards);
    HoldsEvent(log[x].messages, x + 1, Full(PlanOf(job).nparts(x + 1)));
    hide LogRight;
    forall m | m in log[x].messages
      ensures m.part >= 1 && WorkerResult(m.data, Cut(Prims(job, x + 1), job.g, m.part - 1))
    {
      assert m in messages;
      var y :| 0 <= y < |messages| && messages[y] == m;
      SentIsResult(m, job, worker, arrival[y]);
    }
  }

  /** The merger's side: any order of arrival, any interleaving of its two threads. */
  method MergeAll<P(!new)>(job: Job<P>, ghost worker: (nat, Chunk<P>) -> SubEvent<P>, ghost arrival: seq<nat>,
                           messages: seq<Message<SubEvent<P>>>, gap: nat -> nat -> nat,
                           discards: seq<Message<SubEvent<P>>> -> bool)
    returns (outputs: seq<Output<P>>)
    requires job.maxEvents >= 1 && job.g >= 1 && InRange(PlanOf(job)) && Honest(job, worker)
    requires AllSent(messages, job, worker, arrival) && Deliveries(messages, PlanOf(job))
    ensures |outputs| == job.maxEvents && OutputsRight(outputs, job, job.maxEvents)
    ensures (forall m :: !discards(m)) ==> AllWritten(outputs)
  {
    var merger := new HitMerger(1, discards, PlanOf(job));
    merger.Collect(messages, gap);
    outputs := MergeLog(job, worker, arrival, messages, merger.log, discards);
  }

  method MergeLog<P(!new)>(ghost job: Job<P>, ghost worker: (nat, Chunk<P>) -> SubEvent<P>, ghost arrival: seq<nat>,
                           ghost messages: seq<Message<SubEvent<P>>>, log: seq<Flushed<SubEvent<P>>>,
                           ghost discards: seq<Message<SubEvent<P>>> -> bool)
    returns (outputs: seq<Output<P>>)
    requires job.g >= 1 && Honest(job, worker) && AllSent(messages, job, worker, arrival)
    requires LogRight(log, PlanOf(job), discards) && AllFrom(log, messages)
    ensures |outputs| == |log| && OutputsRight(outputs, job, |log|)
    ensures (forall m :: !discards(m)) ==> AllWritten(outputs)
  {
    outputs := [];
    hide Honest, AllSent, LogRight, AllFrom, PlanOf, EventTracks, OutputsRight, Prims;
    NoOutput(job);
    for x := 0 to |log|
      invariant |outputs| == x && OutputsRight(outputs, job, x)
      invariant (forall m :: !discards(m)) ==> AllWritten(outputs)
    {
      FlushedIsResult(job, worker, arrival, messages, log, discards, x);
      var output := Dropped;
      if log[x].written {
        var t := MergeEvent(log[x].messages, x + 1, Prims(job, x + 1), job.g);
        output := Written(t);
      }
      OneMoreOutput(outputs, job, output);
      outputs := outputs + [output];
    }
  }

  lemma NoOutput<P(!new)>(job: Job<P>)
    requires job.g >= 1
    ensures OutputsRight([], job, 0)
  {}

  lemma OneMoreOutput<P(!new)>(outputs: seq<Output<P>>, job: Job<P>, output: Output<P>)
    requires job.g >= 1 && OutputsRight(outputs, job, |outputs|)
    requires output.Written? ==> EventTracks(output.tracks, Prims(job, |outputs| + 1), job.g)
    ensures OutputsRight(outputs + [output], job, |outputs| + 1)
    ensures AllWritten(outputs) && output.Written? ==> AllWritten(outputs + [output])
  {
    PrimsGenerated(job, |outputs| + 1);
    hide EventTracks, Generated, Prims;
    assert output.Written? ==> RightEvent(output.tracks, job, |outputs|);
    hide RightEvent;
  }

  /** From the server to the merged lists: for every chunk size, every interleaving of the generator with the
      server and of the merge thread with the receiver, whatever honest workers return and in whatever order it
      arrives, either the server read its state torn and stopped early, or every event that is written
      starts with exactly its own primaries, each once, in their original order. */
  method SimulateBatch<P(!new)>(job: Job<P>, serverGap: nat -> nat -> nat, worker: (nat, Chunk<P>) -> SubEvent<P>,
                          arrival: seq<nat>, mergerGap: nat -> nat -> nat, discards: seq<Message<SubEvent<P>>> -> bool)
    returns (complete: bool, outputs: seq<Output<P>>, ghost before: seq<Generator>)
    requires job.maxEvents >= 1 && job.g >= 1 && InRange(PlanOf(job)) && Honest(job, worker)
    requires IsOrder(arrival, |EventsTo(job, job.maxEvents)|)
    ensures complete <==> forall k :: 0 <= k < |before| ==> !TornRead(before[k], serverGap(k))
    ensures complete ==> |outputs| == job.maxEvents && OutputsRight(outputs, job, job.maxEvents)
    ensures complete && (forall messages :: !discards(messages)) ==> AllWritten(outputs)
  {
    var server := new Server(job);
    var answers;
    answers, before := server.Serve(serverGap);
    var chunks := seq(|answers| - 1, k requires 0 <= k < |answers| - 1 && answers[k].Payload? => answers[k].chunk);
    assert chunks == server.log;
    complete := |chunks| == |EventsTo(job, job.maxEvents)|;
    if !complete {
      return false, [], before;
    }
    assert chunks == EventsTo(job, job.maxEvents);
    var messages := seq(|arrival|, x requires 0 <= x < |arrival| && arrival[x] < |chunks| =>
                          Sent(chunks[arrival[x]], worker(arrival[x], chunks[arrival[x]])));
    AnyArrivalDelivers(job, messages, arrival);
    outputs := MergeAll(job, worker, arrival, messages, mergerGap, discards);
  }
}
