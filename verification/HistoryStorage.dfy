// The periodic history snapshot: every poll result that encodes becomes a record, the records go
// through a copy of the ring, and the copy replaces the ring only once it is stored.
module HistoryStorage {
  import opened Words
  import opened Channel
  import opened Uplink
  import opened ReportPacking
  import opened HistoryRing
  import opened HistoryImage
  import opened HistoryStore
  import opened HistoryRecord

  function SlotRecord(fpu: Fpu, unix: u32, s: Sample): Option<Record>
    requires s.Present? ==> |s.values| == 2
  {
    if s.Absent? then None else RecordOf(fpu, unix, s.channel, s.success, s.values, s.valueCount)
  }

  // The records of the first n slots, in slot order.
  function SnapshotRecords(fpu: Fpu, unix: u32, samples: Snapshot, n: nat): seq<Record>
    requires n <= 32
  {
    if n == 0 then []
    else
      var earlier, last := SnapshotRecords(fpu, unix, samples, n - 1), SlotRecord(fpu, unix, samples[n - 1]);
      if last.None? then earlier else earlier + [last.value]
  }

  // ---- what a snapshot says ----

  predicate FittingSample(s: Sample) {
    s.Present? ==>
      ValidChannelConfig(s.channel) && |s.values| == 2 && s.valueCount == (if s.success then s.channel.quantity else 0) &&
      (s.success ==> forall k :: 0 <= k < s.channel.quantity ==> FitsField(s.channel, s.values[k]))
  }

  function EntryOf(fpu: Fpu, unix: u32, s: Sample): Entry
    requires s.Present? && ValidChannelConfig(s.channel) && |s.values| == 2
  {
    var c := s.channel;
    Entry(unix, c.slot, UplinkSigned(c), c.dataType, s.success, c.quantity,
          if s.success then CarriedAll(fpu, c, s.values)[..c.quantity] else [])
  }

  function EntriesOf(fpu: Fpu, unix: u32, samples: Snapshot, n: nat): seq<Entry>
    requires n <= 32 && forall k :: 0 <= k < 32 ==> FittingSample(samples[k])
  {
    if n == 0 then []
    else
      var earlier := EntriesOf(fpu, unix, samples, n - 1);
      if samples[n - 1].Absent? then earlier else earlier + [EntryOf(fpu, unix, samples[n - 1])]
  }

  function ReadAll(fpu: Fpu, rs: seq<Record>): seq<Entry> {
    if rs == [] then [] else ReadAll(fpu, rs[..|rs| - 1]) + [ReadRecord(fpu, rs[|rs| - 1])]
  }

  // Main result: the records of a snapshot read back as its poll results, each slot once, in order.
  lemma {:induction false} SnapshotReadsBack(fpu: Fpu, unix: u32, samples: Snapshot, n: nat)
    requires n <= 32 && forall k :: 0 <= k < 32 ==> FittingSample(samples[k])
    ensures ReadAll(fpu, SnapshotRecords(fpu, unix, samples, n)) == EntriesOf(fpu, unix, samples, n)
  {
    hide RecordOf, ReadRecord, FitsField, CarriedAll;
    if n == 0 {
    } else {
      SnapshotReadsBack(fpu, unix, samples, n - 1);
      var s := samples[n - 1];
      assert FittingSample(s);
      if s.Present? {
        RecordReadsBack(fpu, unix, s.channel, s.success, s.values);
        var earlier, r := SnapshotRecords(fpu, unix, samples, n - 1), SlotRecord(fpu, unix, s).value;
        assert (earlier + [r])[..|earlier|] == earlier;
      }
    }
  }

  lemma {:induction false} SnapshotIsStamped(fpu: Fpu, unix: u32, samples: Snapshot, n: nat)
    requires n <= 32
    ensures AllStamped(SnapshotRecords(fpu, unix, samples, n)) && |SnapshotRecords(fpu, unix, samples, n)| <= n
    ensures forall k :: 0 <= k < |SnapshotRecords(fpu, unix, samples, n)| ==>
              Timestamp(SnapshotRecords(fpu, unix, samples, n)[k]) == unix
  {
    hide RecordOf, Timestamp;
    if n == 0 {
    } else {
      SnapshotIsStamped(fpu, unix, samples, n - 1);
      var s := samples[n - 1];
      if s.Present? && SlotRecord(fpu, unix, s).Some? {
        RecordIsStamped(fpu, unix, s.channel, s.success, s.values, s.valueCount);
      }
    }
  }

  // A snapshot turns a ring that may be saved into one that may be saved.
  lemma SnapshotIsStorable(fpu: Fpu, unix: u32, samples: Snapshot, ring: seq<Record>)
    requires Storable(ring)
    ensures Storable(LastOf(ring + SnapshotRecords(fpu, unix, samples, 32), CAPACITY))
  {
    hide SnapshotRecords;
    SnapshotIsStamped(fpu, unix, samples, 32);
    var all := ring + SnapshotRecords(fpu, unix, samples, 32);
    assert AllStamped(all);
    var kept := LastOf(all, CAPACITY);
    forall k | 0 <= k < |kept|
      ensures Stamped(kept[k])
    {
      assert kept[k] == all[|all| - |kept| + k];
    }
  }

  // ---- runs of the firmware ----

  // What the firmware does to the journal: it starts and loads, or takes a snapshot, whose save may
  // be cut short by a power loss. In memory it holds the ring last saved or loaded.
  datatype Action = Boot | Take(unix: u32, samples: Snapshot, put: Put, cut: bool)

  // The ring a snapshot saves, if it has any record.
  function Saves(fpu: Fpu, j: Journal, unix: u32, samples: Snapshot): (r: Option<seq<Record>>)
    ensures r.Some? ==> |r.value| <= CAPACITY
  {
    var records := SnapshotRecords(fpu, unix, samples, 32);
    if records == [] then None else Some(LastOf(j.settled + records, CAPACITY))
  }

  function EventsOf(fpu: Fpu, j: Journal, a: Action): seq<Event> {
    match a
    case Boot => [Restart]
    case Take(unix, samples, put, cut) =>
      match Saves(fpu, j, unix, samples)
      case None => if cut then [Restart] else []
      case Some(rs) => [if cut then SaveInterrupted(rs, put) else SaveReturns(rs, put)]
  }

  // What the flash leaves of a save is as the storage assumption says.
  predicate Possible(fpu: Fpu, j: Journal, a: Action) {
    a.Take? && Saves(fpu, j, a.unix, a.samples).Some? ==>
      Plausible(SlotOf(j.slots, Successor(j.generation)),
                Image(Saves(fpu, j, a.unix, a.samples).value, Successor(j.generation), CAPACITY), a.put)
  }

  function After(fpu: Fpu, j: Journal, a: Action): (r: Journal)
    requires Storable(j.settled) && Possible(fpu, j, a)
    ensures Storable(r.settled)
  {
    var events := EventsOf(fpu, j, a);
    if events == [] then j
    else
      ActionIsLegal(fpu, j, a);
      Step(j, events[0])
  }

  lemma ActionIsLegal(fpu: Fpu, j: Journal, a: Action)
    requires Storable(j.settled) && Possible(fpu, j, a) && EventsOf(fpu, j, a) != []
    ensures |EventsOf(fpu, j, a)| == 1 && Legal(j, EventsOf(fpu, j, a)[0])
    ensures Storable(Step(j, EventsOf(fpu, j, a)[0]).settled)
  {
    hide SnapshotRecords, Image, Plausible, LoadOf, Storable;
    if a.Take? && Saves(fpu, j, a.unix, a.samples).Some? { SnapshotIsStorable(fpu, a.unix, a.samples, j.settled); }
    var e := EventsOf(fpu, j, a)[0];
    LoadedIsStorable(j.slots);
    if e.SaveInterrupted? { LoadedIsStorable(SlotsAfterSave(j, e.records, e.put)); }
  }

  // A snapshot whose save returns leaves flash, generation and ring as ProcessHistoryStorage does.
  lemma TakeIsStorageStep(fpu: Fpu, j: Journal, unix: u32, samples: Snapshot, put: Put)
    requires Storable(j.settled) && Possible(fpu, j, Take(unix, samples, put, false))
    ensures var r, records, next := After(fpu, j, Take(unix, samples, put, false)), SnapshotRecords(fpu, unix, samples, 32), Successor(j.generation);
            if records == [] then r == j
            else
              var updated := LastOf(j.settled + records, CAPACITY);
              r.slots == WithSlot(j.slots, next, PutOf(SlotOf(j.slots, next), Image(updated, next, CAPACITY), put)) &&
              r.generation == (if put.Complete? then next else j.generation) &&
              r.settled == (if put.Complete? then updated else j.settled)
  {
    hide SnapshotRecords, Image, Storable, Plausible;
  }

  predicate PossibleRun(fpu: Fpu, j: Journal, actions: seq<Action>)
    requires Storable(j.settled)
    decreases |actions|
  {
    actions != [] ==> Possible(fpu, j, actions[0]) && PossibleRun(fpu, After(fpu, j, actions[0]), actions[1..])
  }

  function AfterAll(fpu: Fpu, j: Journal, actions: seq<Action>): (r: Journal)
    requires Storable(j.settled) && PossibleRun(fpu, j, actions)
    ensures Storable(r.settled)
    decreases |actions|
  {
    if actions == [] then j else AfterAll(fpu, After(fpu, j, actions[0]), actions[1..])
  }

  function AllEvents(fpu: Fpu, j: Journal, actions: seq<Action>): seq<Event>
    requires Storable(j.settled) && PossibleRun(fpu, j, actions)
    decreases |actions|
  {
    if actions == [] then []
    else EventsOf(fpu, j, actions[0]) + AllEvents(fpu, After(fpu, j, actions[0]), actions[1..])
  }

  // Main result: every run of the firmware, from any journal it may find itself with, is a legal
  // run of the journal: it only ever saves rings the journal accepts.
  lemma {:induction false} FirmwareRunsAreLegal(fpu: Fpu, j: Journal, actions: seq<Action>)
    requires Storable(j.settled) && PossibleRun(fpu, j, actions)
    ensures LegalRun(j, AllEvents(fpu, j, actions)) && Run(j, AllEvents(fpu, j, actions)) == AfterAll(fpu, j, actions)
    decreases |actions|
  {
    hide Legal, Step, Storable, Possible, EventsOf;
    if actions == [] {
    } else {
      var events, next := EventsOf(fpu, j, actions[0]), After(fpu, j, actions[0]);
      var later := AllEvents(fpu, next, actions[1..]);
      FirmwareRunsAreLegal(fpu, next, actions[1..]);
      if events == [] {
        assert events + later == later;
      } else {
        ActionIsLegal(fpu, j, actions[0]);
        assert (events + later)[1..] == later;
      }
    }
  }

  // So its history survives power loss: once a snapshot was stored, every load gives the ring last
  // stored or loaded, or one whose storing was attempted since.
  lemma FirmwareHistorySurvives(fpu: Fpu, actions: seq<Action>)
    requires PossibleRun(fpu, BLANK, actions)
    ensures var j := AfterAll(fpu, BLANK, actions);
            (j.saved ==> LoadOf(j.slots).ok) && Expected(j, LoadOf(j.slots).records) && Storable(LoadOf(j.slots).records)
  {
    hide PossibleRun, AfterAll, AllEvents, LoadOf, LegalRun, Run;
    FirmwareRunsAreLegal(fpu, BLANK, actions);
    JournalSurvivesPowerLoss(AllEvents(fpu, BLANK, actions));
    LoadedIsStorable(AfterAll(fpu, BLANK, actions).slots);
  }

  // ---- the service ----

  class Recorder {
    const fpu: Fpu
    const ring: Ring
    const store: Store
    var samples: Snapshot
    var nextSnapshotAtMs: u32
    var skippedNoTime: nat
    var encodeFailures: nat
    var persistFailures: nat
    var snapshotsStored: nat

    ghost predicate Valid()
      reads this, ring, ring.records
    {
      ring.Valid() && ring.capacity == CAPACITY
    }

    constructor (fpu: Fpu, ring: Ring, store: Store)
      requires ring.Valid() && ring.capacity == CAPACITY
      ensures Valid() && this.fpu == fpu && this.ring == ring && this.store == store && samples == seq(32, _ => Absent)
    {
      this.fpu, this.ring, this.store := fpu, ring, store;
      samples := seq(32, _ => Absent);
      nextSnapshotAtMs, skippedNoTime, encodeFailures, persistFailures, snapshotsStored := 0, 0, 0, 0, 0;
    }

    // The record of one slot's poll result, if there is one and it encodes.
    method EncodeSlot(unix: u32, s: Sample) returns (record: Option<Record>)
      requires s.Present? ==> |s.values| == 2
      modifies this`encodeFailures
      ensures record == SlotRecord(fpu, unix, s)
      ensures encodeFailures == old(encodeFailures) + (if s.Present? && record.None? then 1 else 0)
    {
      hide RecordOf;
      if s.Absent? { return None; }
      var payload := new byte[RECORD_LENGTH](_ => 0);
      var status, written := EncodeModbusRecord(fpu, unix, s.channel, s.success, s.values, s.valueCount, payload);
      if status != Done || written != RECORD_LENGTH {
        encodeFailures := encodeFailures + 1;
        return None;
      }
      assert payload[..] == payload[..RECORD_LENGTH];
      return Some(payload[..]);
    }

    // The slot loop: the records are pushed into `updated`, oldest slot first.
    method PushSnapshot(unix: u32, updated: Ring) returns (added: bool)
      requires Valid() && updated.Valid() && updated.capacity == CAPACITY && updated != ring && updated.records != ring.records
      modifies this`encodeFailures, updated, updated.records
      ensures Valid() && updated.Valid() && updated.records == old(updated.records)
      ensures added == (SnapshotRecords(fpu, unix, samples, 32) != [])
      ensures updated.Contents() == LastOf(old(updated.Contents()) + SnapshotRecords(fpu, unix, samples, 32), CAPACITY)
    {
      ghost var before := updated.Contents();
      assert LastOf(before + [], CAPACITY) == before;
      hide SlotRecord, LastOf;
      added := false;
      for slot := 0 to 32
        invariant Valid() && updated.Valid() && updated.records == old(updated.records)
        invariant added == (SnapshotRecords(fpu, unix, samples, slot) != [])
        invariant updated.Contents() == LastOf(before + SnapshotRecords(fpu, unix, samples, slot), CAPACITY)
      {
        ghost var pushed := SnapshotRecords(fpu, unix, samples, slot);
        var record := EncodeSlot(unix, samples[slot]);
        if record.Some? {
          updated.Push(record.value);
          LastOfLast(before + pushed, [record.value], CAPACITY);
          assert (before + pushed) + [record.value] == before + (pushed + [record.value]);
          added := true;
        }
      }
    }

    // One loop step. `put` says what the storage did, `intervalSeconds` is the report interval.
    method ProcessHistoryStorage(storageEnabled: bool, nowMs: u32, unixNow: int, intervalSeconds: u16, put: Put)
      requires Valid()
      modifies this`nextSnapshotAtMs, this`skippedNoTime, this`encodeFailures, this`persistFailures, this`snapshotsStored,
               ring, ring.records, store
      ensures Valid() && ring.records == old(ring.records)
      ensures var due := storageEnabled && SignedDistance(nowMs, old(nextSnapshotAtMs)) >= 0;
              var records := if due && unixNow > 0 then SnapshotRecords(fpu, Wrap32(unixNow), samples, 32) else [];
              var updated := LastOf(old(ring.Contents()) + records, CAPACITY);
              nextSnapshotAtMs == (if due then Wrap32(nowMs + intervalSeconds as int * 1000) else old(nextSnapshotAtMs)) &&
              skippedNoTime == old(skippedNoTime) + (if due && unixNow <= 0 then 1 else 0) &&
              (if records == [] then
                 ring.Contents() == old(ring.Contents()) && store.View() == old(store.View()) &&
                 store.generation == old(store.generation) && persistFailures == old(persistFailures) &&
                 snapshotsStored == old(snapshotsStored)
               else
                 var next := Successor(old(store.generation));
                 ring.Contents() == (if put.Complete? then updated else old(ring.Contents())) &&
                 store.View() == WithSlot(old(store.View()), next,
                                          PutOf(SlotOf(old(store.View()), next), Image(updated, next, CAPACITY), put)) &&
                 store.generation == (if put.Complete? then next else old(store.generation)) &&
                 persistFailures == old(persistFailures) + (if put.Torn? then 1 else 0) &&
                 snapshotsStored == old(snapshotsStored) + (if put.Complete? then 1 else 0))
    {
      hide SnapshotRecords, Image;
      if !storageEnabled { return; }
      if SignedDistance(nowMs, nextSnapshotAtMs) < 0 { return; }
      nextSnapshotAtMs := Wrap32(nowMs + intervalSeconds as int * 1000);
      if unixNow <= 0 {
        skippedNoTime := skippedNoTime + 1;
        return;
      }
      var updated := new Ring(CAPACITY);
      updated.Assign(ring);
      var added := PushSnapshot(Wrap32(unixNow), updated);
      if !added { return; }
      var saved := store.Save(updated, put);
      if !saved {
        persistFailures := persistFailures + 1;
        return;
      }
      ring.Assign(updated);
      snapshotsStored := snapshotsStored + 1;
    }
  }
}
