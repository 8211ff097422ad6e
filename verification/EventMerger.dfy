// The hit merger: parts of events arrive in any order on one thread, complete events are flushed in
// increasing order on another.

module EventMerger {
  import Bits
  import opened CompletenessTest

  /** One message on the data channel; data stands for the tracks, references and hits. */
  datatype Message<D> = Message(eventID: nat, part: nat, nparts: nat, maxEvents: nat, data: D)

  /** The merge thread: not there, started, flag set and looping, loop over, flag cleared. */
  datatype MergerThread = NoThread | Spawned | Running | Exiting | Done

  /** What became of an event: the messages it was flushed with, and whether it was written. */
  datatype Flushed<D> = Flushed(eventID: nat, messages: seq<Message<D>>, written: bool)

  ghost function Parts<D>(messages: seq<Message<D>>): set<nat> {
    set m | m in messages :: m.part
  }

  /** The messages of one event, one for each of the given parts. */
  ghost predicate Holds<D>(messages: seq<Message<D>>, eventID: nat, parts: set<nat>) {
    && Parts(messages) == parts
    && (forall m :: m in messages ==> m.eventID == eventID)
    && (forall x, y :: 0 <= x < y < |messages| ==> messages[x].part != messages[y].part)
  }

  function InsertAdd(m: map<nat, nat>, key: nat, value: nat): map<nat, nat> {
    m[key := ((if key in m then m[key] else 0) + value) % Bits.TWO32]
  }

  lemma SomeMessage<D>(messages: seq<Message<D>>, eventID: nat, n: nat)
    requires Holds(messages, eventID, Full(n)) && n >= 1
    ensures messages != []
  {
    assert 1 in Parts(messages);
  }

  // ---------------------------------------------------------------------------------------------
  // The invariant, piece by piece.

  predicate IsFlushable(flushable: map<nat, bool>, e: nat) { e in flushable && flushable[e] }

  ghost function Arrived(arrived: map<nat, set<nat>>, e: nat): set<nat> {
    if e in arrived then arrived[e] else {}
  }

  function Buffered<D>(buffer: map<nat, seq<Message<D>>>, e: nat): seq<Message<D>> {
    if e in buffer then buffer[e] else []
  }

  function CheckSum(sums: map<nat, nat>, e: nat): nat { if e in sums then sums[e] else 0 }

  /** What the primary server announces: the number of events, and the number of parts of each. */
  datatype Plan = Plan(maxEvents: nat, nparts: nat -> nat)

  /** Within the range in which the sums cannot wrap. */
  ghost predicate InRange(plan: Plan) {
    plan.maxEvents <= 65535 && forall e :: 1 <= plan.nparts(e) <= 65535
  }

  ghost predicate Complete(arrived: map<nat, set<nat>>, plan: Plan, e: nat) {
    1 <= e <= plan.maxEvents && Arrived(arrived, e) == Full(plan.nparts(e))
  }

  // Events below next have been flushed, in order, each with all of its parts.
  ghost predicate LogRight<D>(log: seq<Flushed<D>>, plan: Plan, discards: seq<Message<D>> -> bool) {
    forall x :: 0 <= x < |log| ==> EntryRight(log[x], x + 1, plan, discards)
  }

  ghost predicate EntryRight<D>(f: Flushed<D>, e: nat, plan: Plan, discards: seq<Message<D>> -> bool) {
    f.eventID == e && Holds(f.messages, e, Full(plan.nparts(e))) && (f.written <==> !discards(f.messages))
  }

  ghost predicate FlushablesComplete(flushable: map<nat, bool>, arrived: map<nat, set<nat>>, plan: Plan) {
    forall e :: IsFlushable(flushable, e) ==> Complete(arrived, plan, e)
  }

  ghost predicate FlushedBelow(flushable: map<nat, bool>, next: nat) {
    forall e :: 1 <= e < next ==> IsFlushable(flushable, e)
  }

  ghost predicate BufferRight<D>(buffer: map<nat, seq<Message<D>>>, arrived: map<nat, set<nat>>, next: nat) {
    forall e :: e >= next ==> Holds(Buffered(buffer, e), e, Arrived(arrived, e))
  }

  ghost predicate SumsRight(sums: map<nat, nat>, arrived: map<nat, set<nat>>, plan: Plan) {
    forall e :: Arrived(arrived, e) <= Full(plan.nparts(e))
      && CheckSum(sums, e) == SumUpTo(Arrived(arrived, e), plan.nparts(e))
  }

  ghost predicate AllComplete(arrived: map<nat, set<nat>>, plan: Plan) {
    forall e :: 1 <= e <= plan.maxEvents ==> Complete(arrived, plan, e)
  }

  // What has to be flushable once the events other than e are settled.
  ghost predicate OthersFlushable(flushable: map<nat, bool>, arrived: map<nat, set<nat>>, plan: Plan, e: nat) {
    forall x :: Complete(arrived, plan, x) && x != e ==> IsFlushable(flushable, x)
  }

  ghost predicate AllFlushable(flushable: map<nat, bool>, arrived: map<nat, set<nat>>, plan: Plan) {
    forall x :: Complete(arrived, plan, x) ==> IsFlushable(flushable, x)
  }

  ghost function CompleteEvents(arrived: map<nat, set<nat>>, plan: Plan): set<nat> {
    set e | e in Full(plan.maxEvents) && Complete(arrived, plan, e)
  }

  // Flushing the next event.
  lemma FlushKeeps<D>(log: seq<Flushed<D>>, buffer: map<nat, seq<Message<D>>>, flushable: map<nat, bool>,
                      arrived: map<nat, set<nat>>, plan: Plan, discards: seq<Message<D>> -> bool, next: nat)
    requires InRange(plan) && LogRight(log, plan, discards) && next == |log| + 1
    requires FlushablesComplete(flushable, arrived, plan) && FlushedBelow(flushable, next)
    requires BufferRight(buffer, arrived, next) && IsFlushable(flushable, next)
    ensures Buffered(buffer, next) != []
    ensures var messages := Buffered(buffer, next);
            LogRight(log + [Flushed(next, messages, !discards(messages))], plan, discards)
    ensures FlushedBelow(flushable, next + 1) && BufferRight(buffer[next := []], arrived, next + 1)
  {
    var messages := Buffered(buffer, next);
    assert Complete(arrived, plan, next);
    SomeMessage(messages, next, plan.nparts(next));
  }

  // Nothing is buffered or flushed that was not received.

  ghost predicate OnlyReceived<D>(buffer: map<nat, seq<Message<D>>>, log: seq<Flushed<D>>, received: seq<Message<D>>) {
    && (forall e, m :: m in Buffered(buffer, e) ==> m in received)
    && AllFrom(log, received)
  }

  /** Every message an event was flushed with is one of these. */
  ghost predicate AllFrom<D>(log: seq<Flushed<D>>, messages: seq<Message<D>>) {
    forall x, m :: 0 <= x < |log| && m in log[x].messages ==> m in messages
  }

  lemma FlushReceived<D>(log: seq<Flushed<D>>, buffer: map<nat, seq<Message<D>>>, received: seq<Message<D>>, next: nat,
                         written: bool)
    requires OnlyReceived(buffer, log, received)
    ensures OnlyReceived(buffer[next := []], log + [Flushed(next, Buffered(buffer, next), written)], received)
  {
    var emptied := buffer[next := []];
    forall e, m | m in Buffered(emptied, e)
      ensures m in received
    {
      assert m in Buffered(buffer, e);
    }
  }

  lemma BufferReceived<D>(log: seq<Flushed<D>>, buffer: map<nat, seq<Message<D>>>, received: seq<Message<D>>,
                          m: Message<D>)
    requires OnlyReceived(buffer, log, received)
    ensures OnlyReceived(buffer[m.eventID := Buffered(buffer, m.eventID) + [m]], log, received + [m])
  {
    var fuller := buffer[m.eventID := Buffered(buffer, m.eventID) + [m]];
    forall e, x | x in Buffered(fuller, e)
      ensures x in received + [m]
    {
      assert x in Buffered(buffer, e) || x == m;
    }
  }

  // One more message: its part is new.

  ghost function More(arrived: map<nat, set<nat>>, e: nat, p: nat): map<nat, set<nat>> {
    arrived[e := Arrived(arrived, e) + {p}]
  }

  lemma SumsKept(sums: map<nat, nat>, arrived: map<nat, set<nat>>, plan: Plan, e: nat, p: nat)
    requires InRange(plan) && SumsRight(sums, arrived, plan)
    requires 1 <= p <= plan.nparts(e) && p !in Arrived(arrived, e)
    ensures SumsRight(InsertAdd(sums, e, p), More(arrived, e, p), plan)
  {
    var s, n := Arrived(arrived, e), plan.nparts(e);
    assert s <= Full(n) && CheckSum(sums, e) == SumUpTo(s, n);
    OneMoreFits(s, p, n);
    InsertedSum(sums, e, p);
    hide SumUpTo, Full, InsertAdd;
    forall x: nat
      ensures Arrived(More(arrived, e, p), x) <= Full(plan.nparts(x))
      ensures CheckSum(InsertAdd(sums, e, p), x) == SumUpTo(Arrived(More(arrived, e, p), x), plan.nparts(x))
    {
      assert Arrived(arrived, x) <= Full(plan.nparts(x));
    }
  }

  // The sum does not wrap.
  lemma OneMoreFits(s: set<nat>, p: nat, n: nat)
    requires n <= 65535 && s <= Full(n) && 1 <= p <= n && p !in s
    ensures s + {p} <= Full(n) && SumUpTo(s + {p}, n) == SumUpTo(s, n) + p < Bits.TWO32
  {
    SumOfMore(s, p, n);
    SumTest(s + {p}, n);
  }

  lemma InsertedSum(sums: map<nat, nat>, e: nat, p: nat)
    ensures CheckSum(sums, e) + p < Bits.TWO32 ==> CheckSum(InsertAdd(sums, e, p), e) == CheckSum(sums, e) + p
    ensures forall x: nat :: x != e ==> CheckSum(InsertAdd(sums, e, p), x) == CheckSum(sums, x)
  {}

  lemma HoldsMore<D>(messages: seq<Message<D>>, e: nat, parts: set<nat>, m: Message<D>)
    requires Holds(messages, e, parts) && m.eventID == e && m.part !in parts
    ensures Holds(messages + [m], e, parts + {m.part})
  {
    var more := messages + [m];
    forall p
      ensures p in Parts(more) <==> p in parts + {m.part}
    {
      if p in parts {
        var x :| x in messages && x.part == p;
        assert x in more;
      } else if p == m.part {
        assert m in more;
      }
    }
    forall x, y | 0 <= x < y < |more|
      ensures more[x].part != more[y].part
    {
      assert messages[x].part in Parts(messages);
    }
  }

  lemma BufferKept<D>(buffer: map<nat, seq<Message<D>>>, arrived: map<nat, set<nat>>, next: nat, m: Message<D>)
    requires BufferRight(buffer, arrived, next) && m.part !in Arrived(arrived, m.eventID) && m.eventID >= next
    ensures BufferRight(buffer[m.eventID := Buffered(buffer, m.eventID) + [m]], More(arrived, m.eventID, m.part), next)
  {
    HoldsMore(Buffered(buffer, m.eventID), m.eventID, Arrived(arrived, m.eventID), m);
    hide Holds;
    var fuller := buffer[m.eventID := Buffered(buffer, m.eventID) + [m]];
    forall e: nat | e >= next
      ensures Holds(Buffered(fuller, e), e, Arrived(More(arrived, m.eventID, m.part), e))
    {
      assert Holds(Buffered(buffer, e), e, Arrived(arrived, e));
    }
  }

  // A new part is never one of a complete event, and may complete its own.
  lemma FlushablesKept(flushable: map<nat, bool>, arrived: map<nat, set<nat>>, plan: Plan, next: nat, e: nat, p: nat)
    requires FlushablesComplete(flushable, arrived, plan) && FlushedBelow(flushable, next)
    requires e >= 1 && 1 <= p <= plan.nparts(e) && p !in Arrived(arrived, e)
    ensures FlushablesComplete(flushable, More(arrived, e, p), plan) && !IsFlushable(flushable, e) && e >= next
  {
    assert !Complete(arrived, plan, e);
    assert !IsFlushable(flushable, e);
    assert e < next ==> IsFlushable(flushable, e);
    forall x | IsFlushable(flushable, x)
      ensures Complete(More(arrived, e, p), plan, x)
    {
      assert Complete(arrived, plan, x);
    }
  }

  // The events that are complete after one more part.
  lemma CompleteKept(arrived: map<nat, set<nat>>, plan: Plan, e: nat, p: nat)
    requires 1 <= e <= plan.maxEvents && 1 <= p <= plan.nparts(e) && p !in Arrived(arrived, e)
    ensures e !in CompleteEvents(arrived, plan)
    ensures CompleteEvents(More(arrived, e, p), plan)
         == CompleteEvents(arrived, plan) + if Complete(More(arrived, e, p), plan, e) then {e} else {}
  {
    assert !Complete(arrived, plan, e);
    var more := More(arrived, e, p);
    hide Full;
    FullHas(plan.maxEvents);
    forall x: nat
      ensures x != e ==> (Complete(more, plan, x) <==> Complete(arrived, plan, x))
    {
    }
  }

  lemma FullHas(n: nat)
    ensures forall p :: p in Full(n) <==> 1 <= p <= n
  {}

  // ---------------------------------------------------------------------------------------------
  // The device.

  class HitMerger<D(!new)> {
    var partsCheckSum: map<nat, nat>
    var buffer: map<nat, seq<Message<D>>>
    var flushableEvents: map<nat, bool>
    var eventChecksum: nat
    var nextFlushID: nat
    var thread: MergerThread
    const nExpectedEvents: nat
    const discards: seq<Message<D>> -> bool
    ghost const plan: Plan
    ghost var arrived: map<nat, set<nat>>
    var log: seq<Flushed<D>>
    ghost var received: seq<Message<D>>

    /** What every step of either thread keeps. */
    ghost predicate Valid()
      reads this
    {
      && Consistent(nExpectedEvents, partsCheckSum, buffer, flushableEvents, arrived, plan, log, discards, nextFlushID)
      && OnlyReceived(buffer, log, received)
    }

    /** Between two messages every complete event is flushable and counted. */
    ghost predicate Settled()
      reads this
    {
      IsSettled(flushableEvents, arrived, plan, eventChecksum)
    }

    /** All parts of all events have arrived. */
    ghost predicate AllHere()
      reads this
    {
      AllComplete(arrived, plan)
    }

    constructor (expected: nat, filter: seq<Message<D>> -> bool, ghost announced: Plan)
      requires expected > 0 && InRange(announced)
      ensures Valid() && Settled() && thread == NoThread && log == [] && arrived == map[] && received == []
      ensures plan == announced && discards == filter
    {
      partsCheckSum, buffer, flushableEvents := map[], map[], map[];
      eventChecksum, nextFlushID := 0, 1;
      thread := NoThread;
      nExpectedEvents, discards, plan := expected, filter, announced;
      arrived, log, received := map[], [], [];
      new;
      NothingYet<D>(announced);
    }

    // -------------------------------------------------------------------------------------------
    // The merge thread.

    /** One turn of the flush loop: the next event with everything buffered for it. */
    method FlushNext()
      requires Valid() && IsFlushable(flushableEvents, nextFlushID)
      modifies `buffer, `nextFlushID, `log
      ensures Valid() && nextFlushID == old(nextFlushID) + 1
      ensures log == old(log) + [Flushed(old(nextFlushID), Buffered(old(buffer), old(nextFlushID)),
                                         !discards(Buffered(old(buffer), old(nextFlushID))))]
      ensures buffer == old(buffer)[old(nextFlushID) := []]
    {
      hide OnlyReceived, LogRight, FlushablesComplete, FlushedBelow, BufferRight, SumsRight, Complete, InRange, Full;
      FlushKeeps(log, buffer, flushableEvents, arrived, plan, discards, nextFlushID);
      var messages := Buffered(buffer, nextFlushID);
      // the branch for an event without data is never taken
      assert messages != [] && nExpectedEvents > 0;
      var written := !discards(messages);
      FlushReceived(log, buffer, received, nextFlushID, written);
      log := log + [Flushed(nextFlushID, messages, written)];
      buffer := buffer[nextFlushID := []];
      nextFlushID := nextFlushID + 1;
    }

    /** Whatever the merge thread does next; nothing when there is no thread or it is done. */
    method ThreadStep()
      requires Valid()
      modifies `thread, `buffer, `nextFlushID, `log
      ensures Valid() && old(log) <= log
      ensures match old(thread)
              case Spawned => thread == Running && nextFlushID == old(nextFlushID)
              case Running => if IsFlushable(flushableEvents, old(nextFlushID))
                              then thread == Running && nextFlushID == old(nextFlushID) + 1
                              else thread == Exiting && nextFlushID == old(nextFlushID)
              case Exiting => thread == Done && nextFlushID == old(nextFlushID)
              case _ => thread == old(thread) && nextFlushID == old(nextFlushID)
    {
      hide OnlyReceived, LogRight, FlushablesComplete, FlushedBelow, BufferRight, SumsRight, Complete, InRange, Full;
      if thread == Spawned {
        thread := Running;
      } else if thread == Running {
        if IsFlushable(flushableEvents, nextFlushID) {
          FlushNext();
        } else {
          thread := Exiting;
        }
      } else if thread == Exiting {
        thread := Done;
      }
    }

    /** Any number of merge-thread steps between two steps of the other thread. */
    method Interleave(steps: nat)
      requires Valid()
      modifies `thread, `buffer, `nextFlushID, `log
      ensures Valid() && old(log) <= log
    {
      for i := 0 to steps
        invariant Valid() && old(log) <= log
      {
        ThreadStep();
      }
    }

    ghost function Rank(): nat
      reads this`thread
    {
      match thread
      case Spawned => 3
      case Running => 2
      case Exiting => 1
      case _ => 0
    }

    /** Waiting for the thread, if there is one. A thread that had not left its loop leaves it with the
        next event not flushable. */
    method Join()
      requires Valid()
      modifies `thread, `buffer, `nextFlushID, `log
      ensures Valid() && old(log) <= log && thread == NoThread
      ensures old(thread) == Spawned || old(thread) == Running ==> !IsFlushable(flushableEvents, nextFlushID)
    {
      ghost var looping := thread == Spawned || thread == Running;
      while thread != NoThread && thread != Done
        invariant Valid() && old(log) <= log
        invariant looping ==> thread == Spawned || thread == Running
                              || (thread != NoThread && !IsFlushable(flushableEvents, nextFlushID))
        decreases Rank(), plan.maxEvents + 1 - nextFlushID
      {
        assert IsFlushable(flushableEvents, nextFlushID) ==> Complete(arrived, plan, nextFlushID);
        ThreadStep();
      }
      thread := NoThread;
    }

    // -------------------------------------------------------------------------------------------
    // The receiving thread.

    /** A part is checked in and buffered. */
    method Receive(m: Message<D>)
      requires Valid() && Settled() && IsAnnounced(m, arrived, plan)
      modifies `partsCheckSum, `buffer, `arrived, `received
      ensures Valid() && arrived == More(old(arrived), m.eventID, m.part)
      ensures Pending(flushableEvents, arrived, plan, eventChecksum, m.eventID)
      ensures IsDataComplete(CheckSum(partsCheckSum, m.eventID), m.nparts) <==> Complete(arrived, plan, m.eventID)
      ensures buffer == old(buffer)[m.eventID := Buffered(old(buffer), m.eventID) + [m]]
      ensures partsCheckSum == InsertAdd(old(partsCheckSum), m.eventID, m.part)
      ensures received == old(received) + [m]
    {
      BufferReceived(log, buffer, received, m);
      hide OnlyReceived, Consistent, IsSettled, IsAnnounced, Pending, Complete, IsDataComplete, More, InsertAdd,
        Buffered, CheckSum;
      ArrivalStep(nExpectedEvents, partsCheckSum, buffer, flushableEvents, arrived, plan, log, discards, nextFlushID,
                  eventChecksum, m);
      partsCheckSum := InsertAdd(partsCheckSum, m.eventID, m.part);
      buffer := buffer[m.eventID := Buffered(buffer, m.eventID) + [m]];
      arrived := More(arrived, m.eventID, m.part);
      received := received + [m];
    }

    predicate MergingInProgress()
      reads this`thread
    {
      thread == Running || thread == Exiting
    }

    /** One message, with gap(k) merge-thread steps before the k-th step of this thread. More data is
        expected unless everything is here, and then every event has been flushed. */
    method HandleSimData(m: Message<D>, gap: nat -> nat) returns (expectMore: bool)
      requires Valid() && Settled() && IsAnnounced(m, arrived, plan)
      modifies this
      ensures Valid() && Settled() && old(log) <= log
      ensures arrived == More(old(arrived), m.eventID, m.part) && received == old(received) + [m]
      ensures expectMore <==> !AllHere()
      ensures !expectMore ==> |log| == plan.maxEvents
    {
      hide OnlyReceived, InRange, LogRight, FlushablesComplete, FlushedBelow, BufferRight, SumsRight, Complete,
        AllFlushable, OthersFlushable, AllComplete, Full, SumUpTo, IsDataComplete, More, CheckSum, CompleteEvents;
      Interleave(gap(0));
      Receive(m);
      NotAllYet(flushableEvents, arrived, plan, m.eventID);
      Interleave(gap(1));
      expectMore := true;
      if IsDataComplete(CheckSum(partsCheckSum, m.eventID), m.nparts) {
        expectMore := EventComplete(m, gap);
      }
    }

    /** The event is marked, a merge is started unless one is running, and after the last event a final
        merge is waited for. */
    method EventComplete(m: Message<D>, gap: nat -> nat) returns (expectMore: bool)
      requires Valid() && Complete(arrived, plan, m.eventID) && m.maxEvents == plan.maxEvents
      requires Pending(flushableEvents, arrived, plan, eventChecksum, m.eventID)
      modifies `flushableEvents, `eventChecksum, `thread, `buffer, `nextFlushID, `log
      ensures Valid() && Settled() && old(log) <= log
      ensures expectMore <==> !AllHere()
      ensures !expectMore ==> |log| == plan.maxEvents
    {
      hide OnlyReceived, InRange, LogRight, FlushablesComplete, FlushedBelow, BufferRight, SumsRight, Complete,
        AllFlushable, OthersFlushable, AllComplete, Full, SumUpTo, CompleteEvents, IsDataComplete;
      MarkAndMerge(m.eventID, gap(2));
      Interleave(gap(3));
      eventChecksum := eventChecksum + m.eventID;
      AllEventsTest(arrived, plan);
      expectMore := true;
      if IsDataComplete(eventChecksum, m.maxEvents) {
        FinalMerge();
        expectMore := false;
      }
    }

    /** The event is marked, and unless a merge is already in its loop, or just leaving it, a new one starts. */
    method MarkAndMerge(eventID: nat, gap: nat)
      requires Valid() && Complete(arrived, plan, eventID) && OthersFlushable(flushableEvents, arrived, plan, eventID)
      modifies `flushableEvents, `thread, `buffer, `nextFlushID, `log
      ensures Valid() && AllFlushable(flushableEvents, arrived, plan) && old(log) <= log
      ensures thread == Spawned || thread == Running || thread == Exiting
      ensures flushableEvents == old(flushableEvents)[eventID := true]
    {
      hide OnlyReceived, InRange, LogRight, FlushablesComplete, FlushedBelow, BufferRight, SumsRight, Complete,
        AllFlushable, OthersFlushable;
      MarkKeeps(flushableEvents, arrived, plan, nextFlushID, eventID);
      flushableEvents := flushableEvents[eventID := true];
      Interleave(gap);
      if !MergingInProgress() {
        Join();
        thread := Spawned;
      }
    }

    /** The remaining data are flushed by a merge that starts after everything has been marked. */
    method FinalMerge()
      requires Valid() && AllFlushable(flushableEvents, arrived, plan) && AllHere()
      modifies `thread, `buffer, `nextFlushID, `log
      ensures Valid() && old(log) <= log && thread == NoThread && |log| == plan.maxEvents
    {
      hide OnlyReceived, InRange, LogRight, FlushablesComplete, FlushedBelow, BufferRight, SumsRight, Complete,
        AllFlushable, AllComplete;
      Join();
      thread := Spawned;
      Join();
      NothingLeft(flushableEvents, arrived, plan, nextFlushID);
    }

    /** A whole run: messages in any order of arrival, any interleaving. The loop stops with the last
        message and not before, and then the events have been flushed, each once, from 1 to the last, with
        messages that arrived. */
    method Collect(messages: seq<Message<D>>, gap: nat -> nat -> nat)
      requires Valid() && Settled() && arrived == map[] && log == [] && received == []
      requires plan.maxEvents >= 1 && Deliveries(messages, plan)
      modifies this
      ensures Valid() && |log| == plan.maxEvents && LogRight(log, plan, discards)
      ensures arrived == ArrivedAfter(messages, |messages|)
      ensures AllFrom(log, messages)
    {
      var expectMore := true;
      var i := 0;
      assert InRange(plan) && ArrivedAfter(messages, 0) == map[] && ReceivedFirst([], messages, 0);
      hide ReceivedFirst, AllFrom, OnlyReceived, Consistent, IsSettled, IsAnnounced, Deliveries, AllComplete, InRange,
        LogRight, ArrivedAfter, More;
      SomethingToDeliver(messages, plan);
      while expectMore
        invariant Valid() && Settled() && i <= |messages| && arrived == ArrivedAfter(messages, i)
        invariant ReceivedFirst(received, messages, i)
        invariant expectMore <==> i < |messages|
        invariant !expectMore ==> |log| == plan.maxEvents
        decreases |messages| - i
      {
        NextIsAnnounced(messages, plan, i);
        ArrivedNext(messages, i);
        ReceivedNext(received, messages, i);
        expectMore := HandleSimData(messages[i], gap(i));
        i := i + 1;
        AllHereAtTheEnd(messages, plan, i);
      }
      ReceivedAll(received, messages);
      LogIsRight();
    }

    lemma LogIsRight()
      requires Valid()
      ensures LogRight(log, plan, discards)
      ensures AllFrom(log, received)
    {}
  }

  // Without the event just received, not everything is here.
  lemma NotAllYet(flushable: map<nat, bool>, arrived: map<nat, set<nat>>, plan: Plan, e: nat)
    requires 1 <= e <= plan.maxEvents && OthersFlushable(flushable, arrived, plan, e)
    ensures !Complete(arrived, plan, e) ==> AllFlushable(flushable, arrived, plan) && !AllComplete(arrived, plan)
  {
    hide Complete;
  }

  lemma OthersKept(flushable: map<nat, bool>, arrived: map<nat, set<nat>>, plan: Plan, e: nat, p: nat)
    requires AllFlushable(flushable, arrived, plan)
    ensures OthersFlushable(flushable, More(arrived, e, p), plan, e)
  {
    hide Full;
    forall x | Complete(More(arrived, e, p), plan, x) && x != e
      ensures IsFlushable(flushable, x)
    {
      assert Complete(arrived, plan, x);
    }
  }

  lemma MarkKeeps(flushable: map<nat, bool>, arrived: map<nat, set<nat>>, plan: Plan, next: nat, e: nat)
    requires FlushablesComplete(flushable, arrived, plan) && FlushedBelow(flushable, next)
    requires Complete(arrived, plan, e) && OthersFlushable(flushable, arrived, plan, e)
    ensures var marked := flushable[e := true];
            && FlushablesComplete(marked, arrived, plan) && FlushedBelow(marked, next)
            && AllFlushable(marked, arrived, plan)
  {
    hide Complete;
    var marked := flushable[e := true];
    forall x
      ensures IsFlushable(marked, x) <==> x == e || IsFlushable(flushable, x)
    {
    }
  }

  lemma SumOfComplete(arrived: map<nat, set<nat>>, plan: Plan, e: nat, p: nat)
    requires 1 <= e <= plan.maxEvents && 1 <= p <= plan.nparts(e) && p !in Arrived(arrived, e)
    ensures SumUpTo(CompleteEvents(More(arrived, e, p), plan), plan.maxEvents)
            == SumUpTo(CompleteEvents(arrived, plan), plan.maxEvents)
               + if Complete(More(arrived, e, p), plan, e) then e else 0
  {
    CompleteKept(arrived, plan, e, p);
    SumOfMore(CompleteEvents(arrived, plan), e, plan.maxEvents);
    hide *;
    if !Complete(More(arrived, e, p), plan, e) {
      assert CompleteEvents(More(arrived, e, p), plan) == CompleteEvents(arrived, plan);
    }
  }

  /** All of the invariant. */
  ghost predicate Consistent<D>(expected: nat, sums: map<nat, nat>, buffer: map<nat, seq<Message<D>>>,
                                flushable: map<nat, bool>,
                                arrived: map<nat, set<nat>>, plan: Plan, log: seq<Flushed<D>>,
                                discards: seq<Message<D>> -> bool, next: nat) {
    && expected > 0 && InRange(plan)
    && next == |log| + 1 && LogRight(log, plan, discards)
    && FlushablesComplete(flushable, arrived, plan) && FlushedBelow(flushable, next)
    && BufferRight(buffer, arrived, next) && SumsRight(sums, arrived, plan)
  }

  ghost predicate IsSettled(flushable: map<nat, bool>, arrived: map<nat, set<nat>>, plan: Plan, eventChecksum: nat) {
    && AllFlushable(flushable, arrived, plan)
    && eventChecksum == SumUpTo(CompleteEvents(arrived, plan), plan.maxEvents)
  }

  /** A message as the primary server and the workers send it: of the plan, and new. */
  ghost predicate IsAnnounced<D>(m: Message<D>, arrived: map<nat, set<nat>>, plan: Plan) {
    && 1 <= m.eventID <= plan.maxEvents && m.maxEvents == plan.maxEvents && m.nparts == plan.nparts(m.eventID)
    && 1 <= m.part <= m.nparts && m.part !in Arrived(arrived, m.eventID)
  }

  /** The receiving thread still has to mark and count event e, if it is complete. */
  ghost predicate Pending(flushable: map<nat, bool>, arrived: map<nat, set<nat>>, plan: Plan, eventChecksum: nat,
                          e: nat) {
    && OthersFlushable(flushable, arrived, plan, e) && !IsFlushable(flushable, e)
    && SumUpTo(CompleteEvents(arrived, plan), plan.maxEvents)
       == eventChecksum + if Complete(arrived, plan, e) then e else 0
  }

  lemma ArrivalStep<D>(expected: nat, sums: map<nat, nat>, buffer: map<nat, seq<Message<D>>>, flushable: map<nat, bool>,
                       arrived: map<nat, set<nat>>, plan: Plan, log: seq<Flushed<D>>,
                       discards: seq<Message<D>> -> bool, next: nat,
                       eventChecksum: nat, m: Message<D>)
    requires Consistent(expected, sums, buffer, flushable, arrived, plan, log, discards, next)
    requires IsSettled(flushable, arrived, plan, eventChecksum) && IsAnnounced(m, arrived, plan)
    ensures var e, more, added := m.eventID, More(arrived, m.eventID, m.part), InsertAdd(sums, m.eventID, m.part);
            && Consistent(expected, added, buffer[e := Buffered(buffer, e) + [m]], flushable, more, plan, log,
                          discards, next)
            && Pending(flushable, more, plan, eventChecksum, e)
            && (IsDataComplete(CheckSum(added, e), m.nparts) <==> Complete(more, plan, e))
  {
    Arrival(sums, buffer, flushable, arrived, plan, next, m);
    hide InRange, LogRight, FlushablesComplete, FlushedBelow, BufferRight, SumsRight, Complete, AllFlushable,
      OthersFlushable, Full, SumUpTo, IsDataComplete, More, InsertAdd, Buffered, CheckSum, CompleteEvents;
  }

  /** Everything the arrival of one new part keeps and changes. */
  lemma Arrival<D>(sums: map<nat, nat>, buffer: map<nat, seq<Message<D>>>, flushable: map<nat, bool>,
                   arrived: map<nat, set<nat>>, plan: Plan, next: nat, m: Message<D>)
    requires InRange(plan) && SumsRight(sums, arrived, plan) && BufferRight(buffer, arrived, next)
    requires FlushablesComplete(flushable, arrived, plan) && FlushedBelow(flushable, next)
             && AllFlushable(flushable, arrived, plan)
    requires 1 <= m.eventID <= plan.maxEvents && 1 <= m.part <= plan.nparts(m.eventID)
             && m.part !in Arrived(arrived, m.eventID)
    ensures var more := More(arrived, m.eventID, m.part);
            && SumsRight(InsertAdd(sums, m.eventID, m.part), more, plan)
            && BufferRight(buffer[m.eventID := Buffered(buffer, m.eventID) + [m]], more, next)
            && FlushablesComplete(flushable, more, plan) && OthersFlushable(flushable, more, plan, m.eventID)
            && !IsFlushable(flushable, m.eventID)
            && SumUpTo(CompleteEvents(more, plan), plan.maxEvents)
               == SumUpTo(CompleteEvents(arrived, plan), plan.maxEvents)
                  + (if Complete(more, plan, m.eventID) then m.eventID else 0)
            && (IsDataComplete(CheckSum(InsertAdd(sums, m.eventID, m.part), m.eventID), plan.nparts(m.eventID))
               <==> Complete(more, plan, m.eventID))
  {
    hide *;
    var e, p := m.eventID, m.part;
    SumsKept(sums, arrived, plan, e, p);
    FlushablesKept(flushable, arrived, plan, next, e, p);
    BufferKept(buffer, arrived, next, m);
    SumOfComplete(arrived, plan, e, p);
    OthersKept(flushable, arrived, plan, e, p);
    ChecksumTells(InsertAdd(sums, e, p), More(arrived, e, p), plan, e);
  }

  // The last merge leaves nothing: every event is flushable, and the first that is not comes after all.
  lemma NothingLeft(flushable: map<nat, bool>, arrived: map<nat, set<nat>>, plan: Plan, next: nat)
    requires FlushablesComplete(flushable, arrived, plan) && FlushedBelow(flushable, next) && next >= 1
    requires AllFlushable(flushable, arrived, plan) && AllComplete(arrived, plan) && !IsFlushable(flushable, next)
    ensures next == plan.maxEvents + 1
  {
    assert next <= plan.maxEvents ==> Complete(arrived, plan, next);
    assert next > plan.maxEvents + 1 ==> IsFlushable(flushable, plan.maxEvents + 1);
    assert !Complete(arrived, plan, plan.maxEvents + 1);
  }

  // The sum of the parts of an event tells whether all are there, and likewise for the events.

  lemma ChecksumTells(sums: map<nat, nat>, arrived: map<nat, set<nat>>, plan: Plan, e: nat)
    requires InRange(plan) && SumsRight(sums, arrived, plan) && 1 <= e <= plan.maxEvents
    ensures IsDataComplete(CheckSum(sums, e), plan.nparts(e)) <==> Complete(arrived, plan, e)
  {
    assert Arrived(arrived, e) <= Full(plan.nparts(e));
    SumTest(Arrived(arrived, e), plan.nparts(e));
  }

  lemma AllEventsTest(arrived: map<nat, set<nat>>, plan: Plan)
    requires InRange(plan)
    ensures IsDataComplete(SumUpTo(CompleteEvents(arrived, plan), plan.maxEvents), plan.maxEvents)
       <==> AllComplete(arrived, plan)
  {
    var done := CompleteEvents(arrived, plan);
    SumTest(done, plan.maxEvents);
    FullIs(done, plan.maxEvents);
    hide SumUpTo, IsDataComplete;
    forall e | 1 <= e <= plan.maxEvents
      ensures e in done <==> Complete(arrived, plan, e)
    {
      assert e in Full(plan.maxEvents);
    }
  }

  lemma NothingYet<D>(plan: Plan)
    ensures BufferRight<D>(map[], map[], 1) && SumsRight(map[], map[], plan)
    ensures SumUpTo(CompleteEvents(map[], plan), plan.maxEvents) == 0 || !InRange(plan)
    ensures InRange(plan) ==> forall e :: !Complete(map[], plan, e)
  {
    forall e: nat
      ensures SumUpTo(Arrived(map[], e), plan.nparts(e)) == 0
    {
      EmptySum(plan.nparts(e));
    }
    if InRange(plan) {
      forall e: nat
        ensures !Complete(map[], plan, e)
      {
        assert 1 in Full(plan.nparts(e));
      }
      assert CompleteEvents(map[], plan) == {};
      EmptySum(plan.maxEvents);
    }
  }

  // ---------------------------------------------------------------------------------------------
  // Whole runs.

  /** Every part of every event once, in any order. */
  ghost predicate Deliveries<D>(messages: seq<Message<D>>, plan: Plan) {
    && (forall x :: 0 <= x < |messages| ==> Planned(messages[x], plan))
    && (forall x, y :: 0 <= x < y < |messages| ==> !SamePart(messages[x], messages[y]))
    && (forall e, p :: 1 <= e <= plan.maxEvents && 1 <= p <= plan.nparts(e) ==> Delivered(messages, |messages|, e, p))
  }

  ghost predicate Planned<D>(m: Message<D>, plan: Plan) {
    && 1 <= m.eventID <= plan.maxEvents && m.maxEvents == plan.maxEvents && m.nparts == plan.nparts(m.eventID)
    && 1 <= m.part <= m.nparts
  }

  predicate SamePart<D>(m: Message<D>, n: Message<D>) { m.eventID == n.eventID && m.part == n.part }

  ghost predicate Delivered<D>(messages: seq<Message<D>>, n: nat, e: nat, p: nat)
    requires n <= |messages|
  {
    exists x :: 0 <= x < n && messages[x].eventID == e && messages[x].part == p
  }

  ghost function ArrivedAfter<D>(messages: seq<Message<D>>, n: nat): map<nat, set<nat>>
    requires n <= |messages|
  {
    if n == 0 then map[] else More(ArrivedAfter(messages, n - 1), messages[n - 1].eventID, messages[n - 1].part)
  }

  lemma ArrivedNext<D>(messages: seq<Message<D>>, n: nat)
    requires n < |messages|
    ensures ArrivedAfter(messages, n + 1) == More(ArrivedAfter(messages, n), messages[n].eventID, messages[n].part)
  {}

  lemma {:induction false} ArrivedIs<D>(messages: seq<Message<D>>, n: nat, e: nat, p: nat)
    requires n <= |messages|
    ensures p in Arrived(ArrivedAfter(messages, n), e) <==> Delivered(messages, n, e, p)
  {
    if n > 0 {
      ArrivedIs(messages, n - 1, e, p);
      if Delivered(messages, n - 1, e, p) {
        var x :| 0 <= x < n - 1 && messages[x].eventID == e && messages[x].part == p;
        assert Delivered(messages, n, e, p);
      }
    }
  }

  ghost predicate ReceivedFirst<D>(received: seq<Message<D>>, messages: seq<Message<D>>, n: nat) {
    n <= |messages| && received == messages[..n]
  }

  lemma ReceivedNext<D>(received: seq<Message<D>>, messages: seq<Message<D>>, n: nat)
    requires n < |messages| && ReceivedFirst(received, messages, n)
    ensures ReceivedFirst(received + [messages[n]], messages, n + 1)
  {}

  lemma ReceivedAll<D>(received: seq<Message<D>>, messages: seq<Message<D>>)
    requires ReceivedFirst(received, messages, |messages|)
    ensures received == messages
  {}

  lemma SomethingToDeliver<D>(messages: seq<Message<D>>, plan: Plan)
    requires plan.maxEvents >= 1 && InRange(plan) && Deliveries(messages, plan)
    ensures |messages| > 0
  {
    assert Delivered(messages, |messages|, 1, 1);
  }

  lemma NextIsAnnounced<D>(messages: seq<Message<D>>, plan: Plan, i: nat)
    requires Deliveries(messages, plan) && i < |messages|
    ensures IsAnnounced(messages[i], ArrivedAfter(messages, i), plan)
  {
    ArrivedIs(messages, i, messages[i].eventID, messages[i].part);
  }

  lemma AllHereAtTheEnd<D>(messages: seq<Message<D>>, plan: Plan, i: nat)
    requires Deliveries(messages, plan) && i <= |messages|
    ensures AllComplete(ArrivedAfter(messages, i), plan) <==> i == |messages|
  {
    var now := ArrivedAfter(messages, i);
    if i == |messages| {
      forall e | 1 <= e <= plan.maxEvents
        ensures Complete(now, plan, e)
      {
        forall p
          ensures p in Arrived(now, e) <==> p in Full(plan.nparts(e))
        {
          ArrivedIs(messages, i, e, p);
        }
      }
    } else {
      var m := messages[i];
      NextIsAnnounced(messages, plan, i);
      assert m.part in Full(plan.nparts(m.eventID));
      assert !Complete(now, plan, m.eventID);
    }
  }
}
