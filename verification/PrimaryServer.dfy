// The primary server in batch mode: events generated on a side thread, cut into chunks from the back,
// handed to whichever worker asks.

module PrimaryServer {
  import Bits

  datatype ServerState = Initializing | ReadyToServe | WaitingEvent | Idle | Stopped

  /** The generator thread: none to join, started, writing the stack, over but not joined. */
  datatype Generator = NoThread | Launched | Generating | Finished

  datatype Chunk<P> = Chunk(eventID: nat, part: nat, nparts: nat, maxEvents: nat, particles: seq<P>)

  /** What a worker gets: the server state and perhaps a chunk. */
  datatype Answer<P> = NoPayload(state: ServerState) | Payload(state: ServerState, chunk: Chunk<P>)

  // ---------------------------------------------------------------------------------------------
  // Cutting.

  function NumberOfParts(n: nat, g: nat): (r: nat)
    requires g >= 1
    ensures r >= 1 && (r - 1) * g <= n <= r * g && (n > 0 ==> (r - 1) * g < n)
  {
    var ceil := (n + g - 1) / g;
    CeilBounds(n, g, ceil);
    if ceil >= 1 then ceil else 1
  }

  lemma CeilBounds(n: nat, g: nat, c: int)
    requires g >= 1 && c == (n + g - 1) / g
    ensures c >= 0 && (c - 1) * g < n <= c * g && (n == 0 <==> c == 0)
  {
    var r := (n + g - 1) % g;
    assert n + g - 1 == c * g + r && 0 <= r < g;
    assert (c - 1) * g == c * g - g;
    if c < 0 { Bits.MulMono(c, -1, g); }
    if c == 0 { assert c * g == 0; }
    if c >= 1 { Bits.MulMono(1, c, g); }
  }

  function AtLeastZero(x: int): nat { if x < 0 then 0 else x }

  /** The primaries of part p + 1: granularity g, counted from the back. */
  function Cut<P>(prims: seq<P>, g: nat, p: nat): seq<P> {
    var endindex, startindex := |prims| - p * g, |prims| - (p + 1) * g;
    CutOrder(|prims|, g, p);
    prims[AtLeastZero(startindex)..AtLeastZero(endindex)]
  }

  lemma CutOrder(n: nat, g: nat, p: nat)
    ensures 0 <= p * g <= (p + 1) * g
  {
    assert (p + 1) * g == p * g + g;
    Bits.MulMono(0, p, g);
  }

  /** The parts k, k - 1, ..., 1 one after the other. */
  function FromPart<P>(prims: seq<P>, g: nat, k: nat): seq<P> {
    if k == 0 then [] else Cut(prims, g, k - 1) + FromPart(prims, g, k - 1)
  }

  lemma {:induction false} FromPartIs<P>(prims: seq<P>, g: nat, k: nat)
    ensures FromPart(prims, g, k) == prims[AtLeastZero(|prims| - k * g)..]
  {
    if k > 0 {
      FromPartIs(prims, g, k - 1);
      CutOrder(|prims|, g, k - 1);
    } else {
      assert prims[|prims|..] == [];
    }
  }

  /** Last part first, the parts of an event are its primaries in their original order, each once. */
  lemma PartsCoverEvent<P>(prims: seq<P>, g: nat)
    requires g >= 1
    ensures FromPart(prims, g, NumberOfParts(|prims|, g)) == prims
  {
    var r := NumberOfParts(|prims|, g);
    FromPartIs(prims, g, r);
    assert prims[0..] == prims;
  }

  // ---------------------------------------------------------------------------------------------
  // Generating.

  /** What the generator may produce: the result of attempt i after so many events. */
  datatype Job<!P> = Job(maxEvents: nat, g: nat, draw: (nat, nat) -> seq<P>)

  /** The first nonempty attempt of at most 101, or nothing. */
  function FirstNonEmpty<P>(draw: (nat, nat) -> seq<P>, counter: nat, i: nat): seq<P>
    decreases 101 - i
  {
    if i > 100 then [] else if |draw(counter, i)| > 0 then draw(counter, i) else FirstNonEmpty(draw, counter, i + 1)
  }

  /** What an event is made of: the first of the attempts 0 to 100 that is not empty, or nothing when all of
      them are empty. */
  ghost predicate Generated<P>(draw: (nat, nat) -> seq<P>, counter: nat, stack: seq<P>) {
    if stack == [] then forall k: nat :: k <= 100 ==> draw(counter, k) == []
    else exists i: nat :: i <= 100 && stack == draw(counter, i) && forall k: nat :: k < i ==> draw(counter, k) == []
  }

  lemma {:induction false} FirstNonEmptyIs<P>(draw: (nat, nat) -> seq<P>, counter: nat, i: nat)
    requires i <= 101 && forall k: nat :: k < i ==> draw(counter, k) == []
    ensures Generated(draw, counter, FirstNonEmpty(draw, counter, i))
    decreases 101 - i
  {
    if i <= 100 && |draw(counter, i)| == 0 {
      FirstNonEmptyIs(draw, counter, i + 1);
    }
  }

  /** The primaries of event e, generated while e - 1 events had been started. */
  function Prims<P>(job: Job<P>, e: nat): seq<P>
    requires e >= 1
  {
    FirstNonEmpty(job.draw, e - 1, 0)
  }

  lemma PrimsGenerated<P>(job: Job<P>, e: nat)
    requires e >= 1
    ensures Generated(job.draw, e - 1, Prims(job, e))
  {
    FirstNonEmptyIs(job.draw, e - 1, 0);
  }

  /** Up to 101 attempts, until one is not empty. */
  method GenerateEvent<P>(draw: (nat, nat) -> seq<P>, counter: nat) returns (stack: seq<P>)
    ensures stack == FirstNonEmpty(draw, counter, 0) && Generated(draw, counter, stack)
  {
    FirstNonEmptyIs(draw, counter, 0);
    hide Generated;
    var valid, retryCounter := false, 0;
    stack := [];
    while !valid
      invariant 0 <= retryCounter <= 101
      invariant if valid then stack == FirstNonEmpty(draw, counter, 0)
                else retryCounter <= 100
                     && FirstNonEmpty(draw, counter, retryCounter) == FirstNonEmpty(draw, counter, 0)
      decreases !valid, 101 - retryCounter
    {
      stack := draw(counter, retryCounter);
      if |stack| > 0 {
        valid := true;
      } else {
        retryCounter := retryCounter + 1;
        if retryCounter > 100 {
          valid := true;
        }
      }
    }
  }

  // ---------------------------------------------------------------------------------------------
  // What has to be handed out, and in which order.

  function PartCount<P>(job: Job<P>, e: nat): nat
    requires e >= 1 && job.g >= 1
  {
    NumberOfParts(|Prims(job, e)|, job.g)
  }

  function ChunkOf<P>(job: Job<P>, e: nat, p: nat): Chunk<P>
    requires e >= 1 && job.g >= 1
  {
    Chunk(e, p + 1, PartCount(job, e), job.maxEvents, Cut(Prims(job, e), job.g, p))
  }

  /** The first k parts of event e, in order. */
  function PartsOf<P>(job: Job<P>, e: nat, k: nat): seq<Chunk<P>>
    requires e >= 1 && job.g >= 1
  {
    if k == 0 then [] else PartsOf(job, e, k - 1) + [ChunkOf(job, e, k - 1)]
  }

  /** All parts of the events 1 to e, in order. */
  function EventsTo<P>(job: Job<P>, e: nat): seq<Chunk<P>>
    requires job.g >= 1
  {
    if e == 0 then [] else EventsTo(job, e - 1) + PartsOf(job, e, PartCount(job, e))
  }

  function HandedOut<P>(job: Job<P>, e: nat, k: nat): seq<Chunk<P>>
    requires job.g >= 1
  {
    if e == 0 then [] else EventsTo(job, e - 1) + PartsOf(job, e, k)
  }

  // ---------------------------------------------------------------------------------------------
  // The invariant.

  ghost predicate Consistent<P>(job: Job<P>, state: ServerState, eventCounter: nat, partCounter: nat,
                                needNewEvent: bool,
                                stack: seq<P>, generator: Generator, log: seq<Chunk<P>>) {
    && job.maxEvents >= 1 && job.g >= 1 && eventCounter <= job.maxEvents
    && log == HandedOut(job, eventCounter, partCounter)
    && (if eventCounter == 0 then needNewEvent && partCounter == 0
        else partCounter <= PartCount(job, eventCounter)
             && (needNewEvent <==> partCounter == PartCount(job, eventCounter)))
    && (!needNewEvent ==> generator == NoThread && state == ReadyToServe && stack == Prims(job, eventCounter))
    && (needNewEvent && eventCounter == job.maxEvents ==> generator == NoThread && state == ReadyToServe)
    && (needNewEvent && eventCounter < job.maxEvents ==>
          && (generator == Generating <==> state == WaitingEvent)
          && (generator != Generating ==> state == ReadyToServe)
          && (generator == NoThread || generator == Finished ==> stack == Prims(job, eventCounter + 1)))
  }

  ghost predicate AllHandedOut<P>(job: Job<P>, log: seq<Chunk<P>>)
    requires job.g >= 1
  {
    log == EventsTo(job, job.maxEvents)
  }

  // ---------------------------------------------------------------------------------------------
  // The generator thread.

  function Next(generator: Generator): Generator {
    match generator
    case Launched => Generating
    case Generating => Finished
    case _ => generator
  }

  function Advance(generator: Generator, steps: nat): Generator {
    if steps == 0 then generator else Next(Advance(generator, steps - 1))
  }

  /** The request handler loads the server state twice in one test. The two loads see "waiting" and
      then "ready" when the generator finishes its event exactly between them. */
  predicate TornRead(generator: Generator, gap: nat -> nat) {
    Advance(generator, gap(0)) == Generating && gap(1) >= 1
  }

  /** How a worker takes an answer without payload: it backs off, or it quits. */
  predicate WorkerQuits<P>(answer: Answer<P>) {
    answer.NoPayload? && answer.state != Initializing && answer.state != WaitingEvent
  }

  /** The generator is launched after the last part of an event that is not the last. */
  function Following<P>(job: Job<P>, needNewEvent: bool, eventCounter: nat): Generator {
    if needNewEvent && eventCounter < job.maxEvents then Launched else NoThread
  }

  // ---------------------------------------------------------------------------------------------
  // The device.

  /** The answers given so far, with the state of the generator before each. */
  ghost predicate Recorded<P>(answers: seq<Answer<P>>, before: seq<Generator>, log: seq<Chunk<P>>, full: seq<Chunk<P>>,
                              gap: nat -> nat -> nat, running: bool) {
    && |answers| == |before| == |log| + (if running then 0 else 1)
    && (forall k :: 0 <= k < |log| ==>
         answers[k].Payload? && answers[k].chunk == log[k] && !TornRead(before[k], gap(k)))
    && log <= full
    && (!running ==> WorkerQuits(answers[|log|]) && (log == full <==> !TornRead(before[|log|], gap(|log|))))
  }

  lemma RecordedStart<P>(full: seq<Chunk<P>>, gap: nat -> nat -> nat)
    ensures Recorded([], [], [], full, gap, true)
  {}

  lemma RecordedLength<P>(answers: seq<Answer<P>>, before: seq<Generator>, log: seq<Chunk<P>>, full: seq<Chunk<P>>,
                          gap: nat -> nat -> nat)
    requires Recorded(answers, before, log, full, gap, true)
    ensures |answers| == |log| && log <= full
  {}

  lemma RecordedChunk<P>(answers: seq<Answer<P>>, before: seq<Generator>, log: seq<Chunk<P>>, full: seq<Chunk<P>>,
                         gap: nat -> nat -> nat, answer: Answer<P>, was: Generator)
    requires Recorded(answers, before, log, full, gap, true) && answer.Payload? && !TornRead(was, gap(|answers|))
    requires log + [answer.chunk] <= full
    ensures Recorded(answers + [answer], before + [was], log + [answer.chunk], full, gap, true)
  {}

  lemma RecordedEnd<P>(answers: seq<Answer<P>>, before: seq<Generator>, log: seq<Chunk<P>>, full: seq<Chunk<P>>,
                       gap: nat -> nat -> nat, answer: Answer<P>, was: Generator)
    requires Recorded(answers, before, log, full, gap, true) && WorkerQuits(answer)
    requires log == full <==> !TornRead(was, gap(|answers|))
    ensures Recorded(answers + [answer], before + [was], log, full, gap, false)
  {}

  lemma RecordedResult<P>(answers: seq<Answer<P>>, before: seq<Generator>, log: seq<Chunk<P>>, full: seq<Chunk<P>>,
                          gap: nat -> nat -> nat)
    requires Recorded(answers, before, log, full, gap, false)
    ensures |answers| == |before| == |log| + 1 && WorkerQuits(answers[|log|]) && log <= full
    ensures forall k :: 0 <= k < |log| ==> answers[k].Payload? && answers[k].chunk == log[k]
    ensures log == full <==> forall k :: 0 <= k < |before| ==> !TornRead(before[k], gap(k))
  {}

  lemma TornNeedsGenerator(generator: Generator, gap: nat -> nat)
    ensures TornRead(generator, gap) ==> generator == Launched || generator == Generating
  {
    if generator == NoThread || generator == Finished {
      Settled(generator, gap(0));
    }
  }

  lemma {:induction false} Settled(generator: Generator, steps: nat)
    requires generator == NoThread || generator == Finished
    ensures Advance(generator, steps) == generator
  {
    if steps > 0 {
      Settled(generator, steps - 1);
    }
  }

  class Server<P> {
    const job: Job<P>
    var state: ServerState
    var eventCounter: nat
    var partCounter: nat
    var needNewEvent: bool
    var stack: seq<P>
    var generator: Generator
    ghost var log: seq<Chunk<P>>

    ghost predicate Valid()
      reads this
    {
      Consistent(job, state, eventCounter, partCounter, needNewEvent, stack, generator, log)
    }

    /** Everything announced has been handed out. */
    predicate NothingLeft()
      reads this
    {
      eventCounter >= job.maxEvents && needNewEvent
    }

    /** After initialisation the first event has been generated and its thread joined. */
    constructor (j: Job<P>)
      requires j.maxEvents >= 1 && j.g >= 1
      ensures Valid() && job == j && generator == NoThread && log == [] && eventCounter == 0
    {
      job := j;
      eventCounter, partCounter, needNewEvent := 0, 0, true;
      stack := [];
      generator, log := NoThread, [];
      state := Initializing;
      new;
      state := WaitingEvent;
      var primaries := GenerateEvent(job.draw, 0);
      stack := primaries;
      state := ReadyToServe;
    }

    /** One step of the generator thread, if it runs. */
    method GeneratorStep()
      requires Valid()
      modifies `state, `stack, `generator
      ensures Valid() && generator == Next(old(generator))
    {
      if generator == Launched {
        state, generator := WaitingEvent, Generating;
      } else if generator == Generating {
        hide FirstNonEmpty, PartCount, HandedOut;
        var primaries := GenerateEvent(job.draw, eventCounter);
        stack := primaries;
        state, generator := ReadyToServe, Finished;
      }
    }

    method Interleave(steps: nat)
      requires Valid()
      modifies `state, `stack, `generator
      ensures Valid() && generator == Advance(old(generator), steps)
    {
      for i := 0 to steps
        invariant Valid() && generator == Advance(old(generator), i)
      {
        GeneratorStep();
      }
    }

    method Join()
      requires Valid()
      modifies `state, `stack, `generator
      ensures Valid() && generator == NoThread && state == ReadyToServe
    {
      hide FirstNonEmpty, PartCount, HandedOut;
      while generator == Launched || generator == Generating
        invariant Valid()
        decreases if generator == Launched then 2 else if generator == Generating then 1 else 0
      {
        GeneratorStep();
      }
      generator := NoThread;
    }

    /** One request, with gap(k) generator steps before the k-th look at the server state. A worker is
        turned away exactly when nothing is left or the state was read torn. */
    method HandleRequest(gap: nat -> nat) returns (answer: Answer<P>)
      requires Valid()
      modifies this
      ensures Valid()
      ensures answer.NoPayload? <==> old(NothingLeft()) || TornRead(old(generator), gap)
      ensures answer.NoPayload? ==> WorkerQuits(answer) && log == old(log)
      ensures answer.Payload? ==> log == old(log) + [answer.chunk]
      ensures answer.Payload? ==> partCounter >= 1 && generator == Following(job, needNewEvent, eventCounter)
    {
      var workavailable := WorkAvailable(gap);
      Interleave(gap(2));
      var seen := state;
      if !workavailable {
        return NoPayload(seen);
      }
      if needNewEvent {
        StartEvent();
      }
      var chunk := NextChunk();
      answer := Payload(seen, chunk);
    }

    /** Is there work, and may it be handed out? The state is loaded twice. */
    method WorkAvailable(gap: nat -> nat) returns (workavailable: bool)
      requires Valid()
      modifies `state, `stack, `generator
      ensures Valid()
      ensures workavailable <==> !NothingLeft() && !TornRead(old(generator), gap)
      ensures !workavailable ==> state == ReadyToServe && (generator == NoThread || generator == Finished)
    {
      hide FirstNonEmpty, PartCount, HandedOut;
      Interleave(gap(0));
      workavailable := true;
      if eventCounter >= job.maxEvents && needNewEvent {
        workavailable := false;
      }
      var first := state;
      Interleave(gap(1));
      if !(first == ReadyToServe || state == WaitingEvent) {
        workavailable := false;
      }
    }

    /** Join the generator and move to the event it has made. */
    method StartEvent()
      requires Valid() && needNewEvent && eventCounter < job.maxEvents
      modifies this
      ensures Valid() && !needNewEvent && log == old(log)
    {
      Join();
      // the wait for a generator still busy after the join is over at once
      assert state == ReadyToServe;
      EventStarts(job, eventCounter, partCounter);
      hide HandedOut, FirstNonEmpty, PartCount;
      needNewEvent := false;
      partCounter := 0;
      eventCounter := eventCounter + 1;
    }

    /** Cut the next part out of the stack, which no generator is writing, and launch the generator
        after the last part; the thread object it is assigned to is not joinable. */
    method NextChunk() returns (chunk: Chunk<P>)
      requires Valid() && !needNewEvent
      modifies this
      ensures Valid() && log == old(log) + [chunk]
      ensures partCounter >= 1 && generator == Following(job, needNewEvent, eventCounter)
    {
      assert generator == NoThread;
      PartHandedOut(job, eventCounter, partCounter);
      var prims := stack;
      var numberofparts := NumberOfParts(|prims|, job.g);
      var endindex, startindex: int := |prims| - partCounter * job.g, |prims| - (partCounter + 1) * job.g;
      if startindex < 0 {
        startindex := 0;
      }
      if endindex < 0 {
        endindex := 0;
      }
      CutOrder(|prims|, job.g, partCounter);
      chunk := Chunk(eventCounter, partCounter + 1, numberofparts, job.maxEvents, prims[startindex..endindex]);
      assert chunk == ChunkOf(job, eventCounter, partCounter);
      hide HandedOut, FirstNonEmpty, PartCount, ChunkOf, Cut;
      partCounter := partCounter + 1;
      if partCounter == numberofparts {
        needNewEvent := true;
        if eventCounter < job.maxEvents {
          generator := Launched;
        }
      }
      log := log + [chunk];
    }

    /** One turn of the device loop: it goes on until a worker has been turned away. */
    method ConditionalRun(gap: nat -> nat) returns (answer: Answer<P>, running: bool)
      requires Valid()
      modifies this
      ensures running ==> Valid()
      ensures running <==> answer.Payload?
      ensures answer.NoPayload? <==> old(NothingLeft()) || TornRead(old(generator), gap)
      ensures answer.NoPayload? ==> WorkerQuits(answer) && log == old(log)
      ensures answer.Payload? ==> log == old(log) + [answer.chunk]
    {
      answer := HandleRequest(gap);
      assert state != Stopped;
      if answer.NoPayload? {
        state := Stopped;
      }
      running := state != Stopped;
    }

    /** A whole run. The answers are chunks, in order, and then one that makes its worker quit. All
        parts of all events have been handed out by then if and only if the state was never read torn. */
    method Serve(gap: nat -> nat -> nat) returns (answers: seq<Answer<P>>, ghost before: seq<Generator>)
      requires Valid() && log == []
      modifies this
      ensures |answers| == |before| == |log| + 1
      ensures forall k :: 0 <= k < |log| ==> answers[k].Payload? && answers[k].chunk == log[k]
      ensures WorkerQuits(answers[|log|])
      ensures log <= EventsTo(job, job.maxEvents)
      ensures AllHandedOut(job, log) <==> forall k :: 0 <= k < |before| ==> !TornRead(before[k], gap(k))
    {
      GeneratorAhead();
      ghost var full := EventsTo(job, job.maxEvents);
      hide HandedOut, EventsTo, FirstNonEmpty, PartCount, Consistent, Recorded;
      answers, before := [], [];
      var running := true;
      RecordedStart<P>(full, gap);
      while running
        invariant running ==> Valid()
        invariant Recorded(answers, before, log, full, gap, running)
        decreases running, |full| - |log|
      {
        GeneratorAhead();
        RecordedLength(answers, before, log, full, gap);
        label Turn:
        ghost var was := generator;
        TornNeedsGenerator(was, gap(|answers|));
        var answer;
        answer, running := ConditionalRun(gap(|answers|));
        if running {
          GeneratorAhead();
          RecordedChunk(answers, before, old@Turn(log), full, gap, answer, was);
        } else {
          RecordedEnd(answers, before, log, full, gap, answer, was);
        }
        answers, before := answers + [answer], before + [was];
      }
      RecordedResult(answers, before, log, full, gap);
    }

    lemma GeneratorAhead()
      requires Valid()
      ensures job.g >= 1 && log == HandedOut(job, eventCounter, partCounter)
      ensures NothingLeft() ==> generator == NoThread && log == EventsTo(job, job.maxEvents)
      ensures !NothingLeft() ==> |log| < |EventsTo(job, job.maxEvents)|
      ensures log <= EventsTo(job, job.maxEvents)
      ensures generator == Launched || generator == Generating ==> !NothingLeft()
    {
      LogBounded(job, eventCounter, partCounter);
    }
  }

  /** Two events of one primary each. The second request comes while the second event is generated, and
      the generation ends between the two loads: the worker quits, the server stops, and half of the
      work is never handed out. */
  method TurnedAwayEarly() returns (first: Answer<int>, second: Answer<int>)
    ensures first.Payload? && first.chunk.eventID == 1 && first.chunk.maxEvents == 2
    ensures WorkerQuits(second)
  {
    hide NumberOfParts, FirstNonEmpty, EventsTo, PartsOf, HandedOut, ChunkOf, Cut, PartCount, Prims;
    var draw := (counter: nat, attempt: nat) => [7];
    var server := new Server(Job(2, 1, draw));
    assert !server.NothingLeft();
    first := server.HandleRequest(_ => 0);
    ghost var e, k := server.eventCounter, server.partCounter;
    assert Advance(NoThread, 0) == NoThread;
    assert server.log == [first.chunk];
    OneEventDone(server.job, e, k, first.chunk);
    second := server.HandleRequest(_ => 1);
    assert Advance(Launched, 1) == Next(Advance(Launched, 0));
  }

  // One chunk out of events of one part each is the whole first event.
  lemma OneEventDone(job: Job<int>, e: nat, k: nat, chunk: Chunk<int>)
    requires job.g == 1 && job.maxEvents == 2 && (forall c: nat, i: nat :: job.draw(c, i) == [7])
    requires 1 <= e <= 2 && 1 <= k <= PartCount(job, e) && HandedOut(job, e, k) == [chunk]
    ensures e == 1 && k == 1 && PartCount(job, 1) == 1 && chunk.eventID == 1 && chunk.maxEvents == 2
  {
    OnePart(1);
    assert Prims(job, 1) == [7] && Prims(job, 2) == [7];
    assert PartCount(job, 1) == 1 && PartCount(job, 2) == 1;
    hide Prims, PartCount, FirstNonEmpty, NumberOfParts;
    PartsGrow(job, 2, k, k);
    EventsGrow(job, 0, 1);
    assert |HandedOut(job, 2, k)| == |EventsTo(job, 1)| + k;
    PartsGrow(job, 1, k, k);
    assert EventsTo(job, 0) == [] && PartsOf(job, 1, 0) == [];
    assert HandedOut(job, 1, 1) == EventsTo(job, 0) + PartsOf(job, 1, 1);
    assert HandedOut(job, 1, k) == EventsTo(job, 0) + PartsOf(job, 1, k);
    assert [chunk][0] == chunk;
  }

  lemma OnePart(g: nat)
    requires g == 1
    ensures NumberOfParts(1, g) == 1
  {}

  lemma EventStarts<P>(job: Job<P>, e: nat, k: nat)
    requires job.g >= 1 && (if e == 0 then k == 0 else k == PartCount(job, e))
    ensures HandedOut(job, e + 1, 0) == HandedOut(job, e, k)
    ensures PartCount(job, e + 1) >= 1
  {
    assert EventsTo(job, e) == HandedOut(job, e, k);
    assert PartsOf(job, e + 1, 0) == [];
  }

  lemma PartHandedOut<P>(job: Job<P>, e: nat, k: nat)
    requires job.g >= 1 && e >= 1
    ensures HandedOut(job, e, k + 1) == HandedOut(job, e, k) + [ChunkOf(job, e, k)]
    ensures PartCount(job, e) == NumberOfParts(|Prims(job, e)|, job.g)
  {
    assert PartsOf(job, e, k + 1) == PartsOf(job, e, k) + [ChunkOf(job, e, k)];
  }

  // What has been handed out so far is a beginning of all there is to hand out.
  lemma {:induction false} LogBounded<P>(job: Job<P>, e: nat, k: nat)
    requires job.g >= 1 && e <= job.maxEvents
    requires if e == 0 then k == 0 else k <= PartCount(job, e)
    ensures HandedOut(job, e, k) <= EventsTo(job, job.maxEvents)
    ensures e == job.maxEvents && (e >= 1 ==> k == PartCount(job, e)) ==>
              HandedOut(job, e, k) == EventsTo(job, job.maxEvents)
    ensures e < job.maxEvents || (e >= 1 && k < PartCount(job, e)) ==>
              |HandedOut(job, e, k)| < |EventsTo(job, job.maxEvents)|
  {
    if e >= 1 {
      PartsGrow(job, e, k, PartCount(job, e));
      assert HandedOut(job, e, k) <= EventsTo(job, e);
    }
    EventsGrow(job, e, job.maxEvents);
  }

  lemma {:induction false} PartsGrow<P>(job: Job<P>, e: nat, k: nat, n: nat)
    requires job.g >= 1 && e >= 1 && k <= n
    ensures PartsOf(job, e, k) <= PartsOf(job, e, n) && |PartsOf(job, e, n)| == n && |PartsOf(job, e, k)| == k
    decreases n
  {
    if k < n {
      PartsGrow(job, e, k, n - 1);
    } else if n > 0 {
      PartsGrow(job, e, n - 1, n - 1);
    }
  }

  lemma {:induction false} EventsGrow<P>(job: Job<P>, e: nat, m: nat)
    requires job.g >= 1 && e <= m
    ensures EventsTo(job, e) <= EventsTo(job, m)
    ensures e < m ==> |EventsTo(job, e)| < |EventsTo(job, m)|
  {
    if e < m {
      EventsGrow(job, e, m - 1);
      PartsGrow(job, m, PartCount(job, m), PartCount(job, m));
    }
  }
}
