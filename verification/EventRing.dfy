// The event ring and its lossy consumer: events are numbered as they are emitted, overwritten
// when the ring is full, and published from a cursor that counts what it missed.
module EventRing {
  import opened Words

  const SOURCE_LENGTH: int := 32
  const TYPE_LENGTH: int := 32
  const DETAIL_LENGTH: int := 128
  const MAX_EVENTS_PER_LOOP: nat := 4

  datatype EventRecord = EventRecord(sequence: nat, timestampUnix: u32, severity: byte, source: string, kind: string, detail: string)

  predicate FitsText(s: string, capacity: nat) {
    0 < |s| < capacity
  }

  predicate Acceptable(source: string, kind: string, detail: string) {
    FitsText(source, SOURCE_LENGTH) && FitsText(kind, TYPE_LENGTH) && (detail == "" || FitsText(detail, DETAIL_LENGTH))
  }

  // Source and kind have 1 to 31 characters, the detail at most 127: each fits its buffer with its end.
  lemma AcceptableMeans(source: string, kind: string, detail: string)
    ensures Acceptable(source, kind, detail) <==> 1 <= |source| <= 31 && 1 <= |kind| <= 31 && |detail| <= 127
  {
  }

  // An acceptable event enters the log under the next number.
  function Logged(log: seq<EventRecord>, t: u32, severity: byte, source: string, kind: string, detail: string): seq<EventRecord> {
    if Acceptable(source, kind, detail) then log + [EventRecord(|log| + 1, t, severity, source, kind, detail)] else log
  }

  // ---- the ring, seen as the whole log of what was emitted ----

  // A log numbers its events from 1.
  predicate Numbered(log: seq<EventRecord>) {
    forall i :: 0 <= i < |log| ==> log[i].sequence == i + 1
  }

  // The number of the oldest event still in a ring of this capacity; 0 when it is empty.
  function OldestOf(log: seq<EventRecord>, capacity: nat): nat {
    if log == [] || capacity == 0 then 0 else |log| - Min(|log|, capacity) + 1
  }

  function MissedOf(log: seq<EventRecord>, capacity: nat, cursor: nat): nat {
    var oldest := OldestOf(log, capacity);
    if cursor + 1 < oldest then oldest - (cursor + 1) else 0
  }

  // The event a consumer at a cursor gets next: the first after the cursor that still exists.
  function NextOf(log: seq<EventRecord>, capacity: nat, cursor: nat): (r: Option<nat>)
    ensures r.Some? ==> cursor < r.value <= |log| && r.value == cursor + MissedOf(log, capacity, cursor) + 1
  {
    var oldest := OldestOf(log, capacity);
    var target := if cursor + 1 < oldest then oldest else cursor + 1;
    if oldest == 0 || target > |log| then None else Some(target)
  }

  // Where the ring keeps the event of a log index.
  function Position(i: nat, capacity: nat): (k: nat)
    requires capacity > 0
    ensures k < capacity
  {
    i % capacity
  }

  lemma PositionsDiffer(a: nat, b: nat, capacity: nat)
    requires a < b < a + capacity
    ensures Position(a, capacity) != Position(b, capacity)
  {
    if a % capacity == b % capacity {
      var k := b / capacity - a / capacity;
      assert b - a == capacity * k;
      if k <= 0 { MultipleBound(capacity, k, 0); } else { MultipleBound(capacity, 1, k); }
      assert false;
    }
  }

  lemma MultipleBound(c: nat, i: int, j: int)
    requires i <= j
    ensures c * i <= c * j
  {
  }

  class EventBus {
    const capacity: nat
    var records: array<EventRecord>
    var count: nat
    var latestSequence: nat
    ghost var log: seq<EventRecord>

    ghost predicate Valid()
      reads this, records
    {
      capacity > 0 && records.Length == capacity && Numbered(log) &&
      latestSequence == |log| && count == Min(|log|, capacity) &&
      forall i :: |log| - count <= i < |log| ==> records[Position(i, capacity)] == log[i]
    }

    constructor (capacity: nat)
      requires capacity > 0
      ensures Valid() && fresh(records) && log == [] && this.capacity == capacity
    {
      this.capacity := capacity;
      records := new EventRecord[capacity](_ => EventRecord(0, 0, 0, "", "", ""));
      count, latestSequence, log := 0, 0, [];
    }

    method Emit(source: string, kind: string, severity: byte, timestampUnix: u32, detail: string) returns (ok: bool)
      requires Valid()
      modifies this, records
      ensures Valid() && records == old(records) && ok == Acceptable(source, kind, detail)
      ensures log == Logged(old(log), timestampUnix, severity, source, kind, detail)
    {
      if !FitsText(source, SOURCE_LENGTH) || !FitsText(kind, TYPE_LENGTH) { return false; }
      if detail != "" && !FitsText(detail, DETAIL_LENGTH) { return false; }
      latestSequence := latestSequence + 1;
      var record := EventRecord(latestSequence, timestampUnix, severity, source, kind, detail);
      forall i | |log| + 1 - Min(|log| + 1, capacity) <= i < |log|
        ensures Position(i, capacity) != Position(|log|, capacity)
      {
        PositionsDiffer(i, |log|, capacity);
      }
      records[(latestSequence - 1) % capacity] := record;
      if count < capacity { count := count + 1; }
      log := log + [record];
      return true;
    }

    method OldestSequence() returns (oldest: nat)
      requires Valid()
      ensures oldest == OldestOf(log, capacity)
    {
      if count == 0 { return 0; }
      return latestSequence - count + 1;
    }

    method MissedSince(cursor: nat) returns (missed: nat)
      requires Valid()
      ensures missed == MissedOf(log, capacity, cursor)
    {
      if count == 0 { return 0; }
      var oldest := OldestSequence();
      var wanted := cursor + 1;
      return if wanted < oldest then oldest - wanted else 0;
    }

    method Read(sequence: nat) returns (record: Option<EventRecord>)
      requires Valid()
      ensures record == if log != [] && OldestOf(log, capacity) <= sequence <= |log| && sequence > 0 then Some(log[sequence - 1]) else None
    {
      var oldest := OldestSequence();
      if sequence == 0 || oldest == 0 || sequence < oldest || sequence > latestSequence { return None; }
      var stored := records[(sequence - 1) % capacity];
      assert stored == log[sequence - 1] by { assert records[Position(sequence - 1, capacity)] == stored; }
      if stored.sequence != sequence { assert false; }
      return Some(stored);
    }

    method Next(cursor: nat) returns (ok: bool, next: nat, record: Option<EventRecord>)
      requires Valid()
      ensures match NextOf(log, capacity, cursor)
              case None => !ok && next == cursor
              case Some(target) => ok && next == target && record == Some(log[target - 1])
    {
      if count == 0 { return false, cursor, None; }
      var oldest := OldestSequence();
      var target := cursor + 1;
      if target < oldest { target := oldest; }
      if target > latestSequence { return false, cursor, None; }
      record := Read(target);
      return true, target, record;
    }
  }

  // ---- the consumer ----

  datatype Consumer = Consumer(cursor: nat, missed: nat, publishes: nat, failures: nat, published: seq<EventRecord>)

  // One round of publishing at most `budget` events; `accepted` says which publishes succeed.
  function PublishOf(log: seq<EventRecord>, capacity: nat, c: Consumer, accepted: seq<bool>): Consumer
    decreases |accepted|
  {
    if accepted == [] then c
    else match NextOf(log, capacity, c.cursor)
      case None => c
      case Some(target) =>
        if !accepted[0] then c.(failures := c.failures + 1)
        else
          PublishOf(log, capacity,
                    Consumer(target, c.missed + MissedOf(log, capacity, c.cursor), c.publishes + 1, c.failures, c.published + [log[target - 1]]),
                    accepted[1..])
  }

  class Publisher {
    var eventCursor: nat
    var eventMissed: nat
    var eventPublishes: nat
    var eventPublishFailures: nat
    ghost var published: seq<EventRecord>

    ghost function View(): Consumer
      reads this
    {
      Consumer(eventCursor, eventMissed, eventPublishes, eventPublishFailures, published)
    }

    constructor ()
      ensures View() == Consumer(0, 0, 0, 0, [])
    {
      eventCursor, eventMissed, eventPublishes, eventPublishFailures, published := 0, 0, 0, 0, [];
    }

    method PublishPendingEvents(bus: EventBus, connected: bool, accepted: seq<bool>)
      requires bus.Valid() && |accepted| == MAX_EVENTS_PER_LOOP
      modifies this
      ensures View() == if connected then PublishOf(bus.log, bus.capacity, old(View()), accepted) else old(View())
    {
      hide MissedOf, NextOf, OldestOf, Numbered, Position, Min;
      if !connected { return; }
      assert accepted[0..] == accepted;
      for i := 0 to MAX_EVENTS_PER_LOOP
        invariant PublishOf(bus.log, bus.capacity, View(), accepted[i..]) == PublishOf(bus.log, bus.capacity, old(View()), accepted)
      {
        assert accepted[i..][0] == accepted[i] && accepted[i..][1..] == accepted[i + 1..];
        var ok, candidate, event := bus.Next(eventCursor);
        if !ok { return; }
        var missedBefore := bus.MissedSince(eventCursor);
        if !accepted[i] {
          eventPublishFailures := eventPublishFailures + 1;
          return;
        }
        eventPublishes := eventPublishes + 1;
        published := published + [event.value];
        eventCursor := candidate;
        eventMissed := eventMissed + missedBefore;
      }
    }
  }

  // ---- conservation over runs ----

  datatype Action =
    | Emitted(timestampUnix: u32, severity: byte, source: string, kind: string, detail: string)
    | Published(connected: bool, accepted: seq<bool>)

  datatype System = System(log: seq<EventRecord>, consumer: Consumer)

  function Act(capacity: nat, s: System, a: Action): System {
    match a
    case Emitted(t, severity, source, kind, detail) =>
      s.(log := Logged(s.log, t, severity, source, kind, detail))
    case Published(connected, accepted) =>
      if !connected then s else s.(consumer := PublishOf(s.log, capacity, s.consumer, accepted))
  }

  function ActAll(capacity: nat, s: System, actions: seq<Action>): System
    decreases |actions|
  {
    if actions == [] then s else ActAll(capacity, Act(capacity, s, actions[0]), actions[1..])
  }

  // Published and missed events add up to the cursor; what was published is what was emitted
  // under that number, in increasing order.
  predicate Conserved(s: System) {
    var c := s.consumer;
    Numbered(s.log) && |c.published| + c.missed == c.cursor <= |s.log| && c.publishes == |c.published| &&
    (forall i :: 0 <= i < |c.published| ==>
       1 <= c.published[i].sequence <= c.cursor && c.published[i] == s.log[c.published[i].sequence - 1]) &&
    forall i, j :: 0 <= i < j < |c.published| ==> c.published[i].sequence < c.published[j].sequence
  }

  // The next event lies behind the cursor, and the missed ones are those in between.
  lemma NextSkipsTheMissed(log: seq<EventRecord>, capacity: nat, cursor: nat)
    requires NextOf(log, capacity, cursor).Some?
    ensures var target := NextOf(log, capacity, cursor).value;
            cursor < target <= |log| && target == cursor + MissedOf(log, capacity, cursor) + 1
  {
  }

  lemma {:induction false} PublishConserves(log: seq<EventRecord>, capacity: nat, c: Consumer, accepted: seq<bool>)
    requires Conserved(System(log, c))
    ensures Conserved(System(log, PublishOf(log, capacity, c, accepted)))
    decreases |accepted|
  {
    hide NextOf, MissedOf;
    var next := NextOf(log, capacity, c.cursor);
    if accepted != [] && next.Some? && accepted[0] {
      NextSkipsTheMissed(log, capacity, c.cursor);
      var target := next.value;
      PublishConserves(log, capacity,
        Consumer(target, c.missed + MissedOf(log, capacity, c.cursor), c.publishes + 1, c.failures, c.published + [log[target - 1]]),
        accepted[1..]);
    }
  }

  // Main result, for every interleaving of emissions and publishing rounds with any failures.
  lemma {:induction false} EventsAreConserved(capacity: nat, s: System, actions: seq<Action>)
    requires Conserved(s)
    ensures Conserved(ActAll(capacity, s, actions))
    decreases |actions|
  {
    if actions == [] {
    } else {
      if actions[0].Published? { PublishConserves(s.log, capacity, s.consumer, actions[0].accepted); }
      EventsAreConserved(capacity, Act(capacity, s, actions[0]), actions[1..]);
    }
  }

  lemma EventsAreConservedFromStart(capacity: nat, actions: seq<Action>)
    ensures Conserved(ActAll(capacity, System([], Consumer(0, 0, 0, 0, [])), actions))
  {
    EventsAreConserved(capacity, System([], Consumer(0, 0, 0, 0, [])), actions);
  }

  // How many publishes succeed before the first that does not.
  function Leading(accepted: seq<bool>): (n: nat)
    ensures n <= |accepted| && (forall i :: 0 <= i < n ==> accepted[i]) && (n < |accepted| ==> !accepted[n])
  {
    if accepted == [] || !accepted[0] then 0 else 1 + Leading(accepted[1..])
  }

  // One round, exactly: the events after the cursor that still exist go out in order, up to the first
  // publish that fails, which is counted and leaves its event for the next round. What was
  // overwritten is counted as missed once the round gets past it.
  predicate RoundSays(log: seq<EventRecord>, capacity: nat, c: Consumer, accepted: seq<bool>, r: Consumer)
    requires c.cursor <= |log|
  {
    var first := FirstKept(log, capacity, c.cursor);
    var n := Min(Leading(accepted), |log| - first);
    r.published == c.published + log[first..first + n] && r.publishes == c.publishes + n &&
    r.cursor == (if n == 0 then c.cursor else first + n) &&
    r.missed == c.missed + (if n == 0 then 0 else first - c.cursor) &&
    r.failures == c.failures + (if n < |accepted| && first + n < |log| then 1 else 0)
  }

  lemma {:induction false} RoundIsExact(log: seq<EventRecord>, capacity: nat, c: Consumer, accepted: seq<bool>)
    requires capacity > 0 && c.cursor <= |log|
    ensures RoundSays(log, capacity, c, accepted, PublishOf(log, capacity, c, accepted))
    decreases |accepted|
  {
    NextIsFirstKept(log, capacity, c.cursor);
    hide NextOf, MissedOf, RoundSays, FirstKept;
    if accepted == [] || c.cursor == |log| || !accepted[0] {
      RoundEnds(log, capacity, c, accepted);
    } else {
      var first := FirstKept(log, capacity, c.cursor);
      var next := Consumer(first + 1, c.missed + (first - c.cursor), c.publishes + 1, c.failures, c.published + [log[first]]);
      RoundIsExact(log, capacity, next, accepted[1..]);
      RoundGoesOn(log, capacity, c, accepted, next, PublishOf(log, capacity, next, accepted[1..]));
    }
  }

  lemma RoundEnds(log: seq<EventRecord>, capacity: nat, c: Consumer, accepted: seq<bool>)
    requires capacity > 0 && c.cursor <= |log| && (accepted == [] || c.cursor == |log| || !accepted[0])
    ensures RoundSays(log, capacity, c, accepted, if accepted == [] || c.cursor == |log| then c else c.(failures := c.failures + 1))
  {
    var first := FirstKept(log, capacity, c.cursor);
    assert c.published + log[first..first] == c.published;
  }

  lemma RoundGoesOn(log: seq<EventRecord>, capacity: nat, c: Consumer, accepted: seq<bool>, next: Consumer, r: Consumer)
    requires capacity > 0 && c.cursor < |log| && accepted != [] && accepted[0]
    requires var first := FirstKept(log, capacity, c.cursor);
             first < |log| && FirstKept(log, capacity, first + 1) == first + 1 &&
             next == Consumer(first + 1, c.missed + (first - c.cursor), c.publishes + 1, c.failures, c.published + [log[first]])
    requires RoundSays(log, capacity, next, accepted[1..], r)
    ensures RoundSays(log, capacity, c, accepted, r)
  {
    hide FirstKept;
    var first := FirstKept(log, capacity, c.cursor);
    var m := Min(Leading(accepted[1..]), |log| - (first + 1));
    assert next.published + log[first + 1..first + 1 + m] == c.published + log[first..first + 1 + m];
  }

  // How many events before the oldest one kept, or before the cursor if that is further on.
  function FirstKept(log: seq<EventRecord>, capacity: nat, cursor: nat): (first: nat)
    requires cursor <= |log|
    ensures cursor <= first <= |log|
  {
    if |log| - cursor > capacity then |log| - capacity else cursor
  }

  lemma NextIsFirstKept(log: seq<EventRecord>, capacity: nat, cursor: nat)
    requires capacity > 0 && cursor <= |log|
    ensures var first := FirstKept(log, capacity, cursor);
            NextOf(log, capacity, cursor) == (if cursor == |log| then None else Some(first + 1)) &&
            MissedOf(log, capacity, cursor) == first - cursor &&
            (cursor < |log| ==> first < |log| && FirstKept(log, capacity, first + 1) == first + 1)
  {
  }

  // The number was published.
  predicate WasPublished(published: seq<EventRecord>, number: nat) {
    exists i :: 0 <= i < |published| && published[i].sequence == number
  }

  // Every event behind the cursor was published or has been overwritten: a publish that fails never
  // loses its event.
  ghost predicate NothingDropped(capacity: nat, s: System) {
    forall number: nat :: 1 <= number <= s.consumer.cursor && !WasPublished(s.consumer.published, number) ==> number + capacity <= |s.log|
  }

  lemma {:induction false} PublishDropsNothing(log: seq<EventRecord>, capacity: nat, c: Consumer, accepted: seq<bool>)
    requires capacity > 0 && Numbered(log) && c.cursor <= |log| && NothingDropped(capacity, System(log, c))
    ensures PublishOf(log, capacity, c, accepted).cursor <= |log|
    ensures NothingDropped(capacity, System(log, PublishOf(log, capacity, c, accepted)))
    decreases |accepted|
  {
    if accepted != [] && accepted[0] && c.cursor < |log| {
      var target := NextOf(log, capacity, c.cursor).value;
      var next := Consumer(target, c.missed + MissedOf(log, capacity, c.cursor), c.publishes + 1, c.failures, c.published + [log[target - 1]]);
      PublishOneDropsNothing(log, capacity, c, next);
      PublishDropsNothing(log, capacity, next, accepted[1..]);
    }
  }

  lemma PublishOneDropsNothing(log: seq<EventRecord>, capacity: nat, c: Consumer, next: Consumer)
    requires capacity > 0 && Numbered(log) && c.cursor < |log| && NothingDropped(capacity, System(log, c))
    requires c.cursor < next.cursor <= |log| && next.published == c.published + [log[next.cursor - 1]]
    requires next.cursor == FirstKept(log, capacity, c.cursor) + 1
    ensures NothingDropped(capacity, System(log, next))
  {
    forall number: nat | 1 <= number <= next.cursor && !WasPublished(next.published, number)
      ensures number + capacity <= |log|
    {
      assert !WasPublished(c.published, number) by { StaysPublished(c.published, log[next.cursor - 1], number); }
      assert next.published[|c.published|].sequence == next.cursor;
    }
  }

  lemma StaysPublished(published: seq<EventRecord>, e: EventRecord, number: nat)
    ensures WasPublished(published, number) ==> WasPublished(published + [e], number)
  {
    if WasPublished(published, number) {
      var i :| 0 <= i < |published| && published[i].sequence == number;
      assert (published + [e])[i].sequence == number;
    }
  }

  // Main result, for every interleaving: whatever publishes fail, only overwritten events are lost.
  lemma {:induction false} OnlyOverwrittenEventsAreLost(capacity: nat, s: System, actions: seq<Action>)
    requires capacity > 0 && Conserved(s) && NothingDropped(capacity, s)
    ensures NothingDropped(capacity, ActAll(capacity, s, actions))
    decreases |actions|
  {
    if actions == [] {
    } else {
      hide Conserved, NothingDropped;
      var next := Act(capacity, s, actions[0]);
      if actions[0].Published? {
        PublishConserves(s.log, capacity, s.consumer, actions[0].accepted);
        assert Numbered(s.log) && s.consumer.cursor <= |s.log| by { ConservedFacts(s); }
        PublishDropsNothing(s.log, capacity, s.consumer, actions[0].accepted);
      } else {
        EmitDropsNothing(capacity, s, actions[0]);
      }
      OnlyOverwrittenEventsAreLost(capacity, next, actions[1..]);
    }
  }

  lemma ConservedFacts(s: System)
    requires Conserved(s)
    ensures Numbered(s.log) && s.consumer.cursor <= |s.log|
  {
  }

  lemma EmitDropsNothing(capacity: nat, s: System, a: Action)
    requires a.Emitted? && Conserved(s) && NothingDropped(capacity, s)
    ensures Conserved(Act(capacity, s, a)) && NothingDropped(capacity, Act(capacity, s, a))
  {
  }

  // Events are lost exactly when the consumer falls behind by more than the ring holds.
  lemma LossMeansOverrun(log: seq<EventRecord>, capacity: nat, cursor: nat)
    requires capacity > 0 && cursor <= |log|
    ensures MissedOf(log, capacity, cursor) == if |log| - cursor > capacity then |log| - cursor - capacity else 0
  {
  }

  // A consumer that keeps up gets every event: with all publishes accepted it reaches the end of
  // the log, or publishes a full round, and misses nothing.
  lemma KeepingUpLosesNothing(log: seq<EventRecord>, capacity: nat, c: Consumer, accepted: seq<bool>)
    requires capacity > 0 && c.cursor <= |log| && |log| - c.cursor <= capacity
    requires forall i :: 0 <= i < |accepted| ==> accepted[i]
    ensures var n := Min(|accepted|, |log| - c.cursor);
            var r := PublishOf(log, capacity, c, accepted);
            r.cursor == c.cursor + n && r.missed == c.missed && r.published == c.published + log[c.cursor..c.cursor + n]
  {
    RoundIsExact(log, capacity, c, accepted);
  }
}
