// Delivery of stored history over the radio: retransmission of what was recorded since the
// network was lost. Accepted payloads are the ones for which the radio's send returned true.
module HistoryDelivery {
  import opened Words
  import opened HistoryRing
  import opened HistoryImage
  import opened HistoryStore

  const PACKET_LIMIT: int := 51

  datatype Settings = Settings(storageEnabled: bool, retransmissionEnabled: bool, retransmissionSeconds: u16, retrievabilitySeconds: u16)

  // The retransmission state of the application.
  datatype Delivery = Delivery(
    networkKnown: bool, wasConnected: bool, pending: bool, lostAt: u32,
    begun: bool, snapshot: seq<Record>, cursor: nat, nextAt: u32,
    packetsSent: nat, sendFailures: nat, stateFailures: nat)

  // What the environment does during one loop step: the clocks, the radio before and during the
  // step, the ring as it is when retransmission takes its turn, and whether a send and a write to
  // the state store succeed. `turn` is false when another uplink used the step.
  datatype Env = Env(nowMs: u32, unixNow: int, connected: bool, turn: bool, linked: bool, settings: Settings,
                     ring: seq<Record>, sendOk: bool, saveOk: bool)

  predicate Enabled(settings: Settings) {
    settings.storageEnabled && settings.retransmissionEnabled
  }

  // Noticing that the network came or went.
  function NetworkOf(d: Delivery, e: Env): Delivery {
    var seen := d.(networkKnown := true, wasConnected := e.connected);
    if !d.networkKnown then
      if e.connected && d.pending then seen.(begun := false, nextAt := e.nowMs) else seen
    else if d.wasConnected && !e.connected && Enabled(e.settings) then
      if e.unixNow <= 0 then seen
      else if e.saveOk then seen.(pending := true, lostAt := Wrap32(e.unixNow), begun := false)
      else seen.(stateFailures := d.stateFailures + 1)
    else if !d.wasConnected && e.connected && d.pending then seen.(begun := false, nextAt := e.nowMs)
    else seen
  }

  // The first record that is not older than the loss of the network.
  function FirstSince(rs: seq<Record>, lostAt: u32): (k: nat)
    ensures k <= |rs|
    ensures k < |rs| ==> Timestamp(rs[k]) >= lostAt
    ensures forall j :: 0 <= j < k ==> Timestamp(rs[j]) < lostAt
  {
    if rs == [] || Timestamp(rs[0]) >= lostAt then 0
    else
      var k := FirstSince(rs[1..], lostAt);
      assert forall j :: 0 < j < k + 1 ==> rs[j] == rs[1..][j - 1];
      k + 1
  }

  // As many whole records as fit into one packet.
  function PacketOf(rs: seq<Record>, cursor: nat): (p: seq<byte>)
    requires cursor <= |rs|
    ensures |p| <= PACKET_LIMIT
  {
    Flatten(rs[cursor..Min(cursor + 2, |rs|)])
  }

  predicate Ready(d: Delivery, e: Env) {
    e.turn && Enabled(e.settings) && d.pending && e.linked && SignedDistance(e.nowMs, d.nextAt) >= 0
  }

  function WithSnapshot(d: Delivery, ring: seq<Record>): Delivery {
    if d.begun then d else d.(begun := true, snapshot := ring, cursor := FirstSince(ring, d.lostAt))
  }

  function Cleared(d: Delivery, saveOk: bool): Delivery {
    if saveOk then d.(pending := false, lostAt := 0, begun := false) else d.(stateFailures := d.stateFailures + 1)
  }

  // One attempt: the new state, the payload handed to the radio, and whether the step is used up.
  datatype Attempt = Attempt(state: Delivery, offered: Option<seq<byte>>, active: bool)

  function RetransmitOf(d: Delivery, e: Env): Attempt
    requires d.begun ==> d.cursor <= |d.snapshot|
  {
    if !Ready(d, e) then Attempt(d, None, false)
    else
      var later := Wrap32(e.nowMs + e.settings.retransmissionSeconds as int * 1000);
      var s := WithSnapshot(d, e.ring);
      if s.cursor == |s.snapshot| then
        if e.saveOk then Attempt(Cleared(s, true), None, false) else Attempt(Cleared(s, false).(nextAt := later), None, true)
      else
        Attempt(Sent(s, e, later), Some(PacketOf(s.snapshot, s.cursor)), true)
  }

  // After handing the next packet to the radio.
  function Sent(s: Delivery, e: Env, later: u32): Delivery
    requires s.cursor <= |s.snapshot|
  {
    if !e.sendOk then s.(nextAt := later, sendFailures := s.sendFailures + 1)
    else
      var sent := s.(nextAt := later, cursor := Min(s.cursor + 2, |s.snapshot|), packetsSent := s.packetsSent + 1);
      if sent.cursor == |s.snapshot| then Cleared(sent, e.saveOk) else sent
  }

  predicate WellFormed(d: Delivery) {
    d.begun ==> d.cursor <= |d.snapshot|
  }

  function Step(d: Delivery, e: Env): (a: Attempt)
    requires WellFormed(d)
    ensures WellFormed(a.state)
  {
    RetransmitOf(NetworkOf(d, e), e)
  }

  // ---- runs ----

  // The state after a run and the payloads the radio accepted during it.
  datatype Run = Run(state: Delivery, accepted: seq<seq<byte>>)

  function Deliver(d: Delivery, envs: seq<Env>): (r: Run)
    requires WellFormed(d)
    ensures WellFormed(r.state)
  {
    if envs == [] then Run(d, [])
    else
      var n := |envs| - 1;
      var earlier, e := Deliver(d, envs[..n]), envs[n];
      Booked(earlier, Step(earlier.state, e), e)
  }

  function Booked(r: Run, a: Attempt, e: Env): Run {
    Run(a.state, if a.offered.Some? && e.sendOk then r.accepted + [a.offered.value] else r.accepted)
  }

  // A session begins with a step that finds the network there again, something pending; it lasts
  // while the network stays.
  predicate Session(d: Delivery, envs: seq<Env>) {
    d.pending && !(d.networkKnown && d.wasConnected) && envs != [] && forall k :: 0 <= k < |envs| ==> envs[k].connected
  }

  // The ring at the first step of a session that may retransmit.
  function SessionSnapshot(startMs: u32, envs: seq<Env>): Option<seq<Record>> {
    if envs == [] then None
    else
      var n := |envs| - 1;
      Taken(SessionSnapshot(startMs, envs[..n]), startMs, envs[n])
  }

  function Taken(earlier: Option<seq<Record>>, startMs: u32, e: Env): Option<seq<Record>> {
    if earlier.None? && e.turn && Enabled(e.settings) && e.linked && SignedDistance(e.nowMs, startMs) >= 0
    then Some(e.ring) else earlier
  }

  lemma {:induction false} FlattenSlices(rs: seq<Record>, from: nat, mid: nat, end: nat)
    requires from <= mid <= end <= |rs|
    ensures Flatten(rs[from..mid]) + Flatten(rs[mid..end]) == Flatten(rs[from..end])
    decreases end
  {
    hide Flatten;
    if mid == end {
      assert rs[mid..end] == [];
    } else {
      FlattenSlices(rs, from, mid, end - 1);
      FlattenAppend(rs[mid..end - 1], rs[end - 1]);
      FlattenAppend(rs[from..end - 1], rs[end - 1]);
      assert rs[mid..end] == rs[mid..end - 1] + [rs[end - 1]] && rs[from..end] == rs[from..end - 1] + [rs[end - 1]];
    }
  }

  // Where a session stands: what was accepted is the records from the first one due up to the
  // cursor, two to a packet.
  predicate OnCourse(r: Run, lostAt: u32, startMs: u32, snapshot: Option<seq<Record>>) {
    var d := r.state;
    d.networkKnown && d.wasConnected && (d.pending ==> d.lostAt == lostAt) &&
    match snapshot
    case None => d.pending && !d.begun && d.nextAt == startMs && r.accepted == []
    case Some(rs) =>
      var from := FirstSince(rs, lostAt);
      d.snapshot == rs && (d.pending ==> d.begun) && d.cursor == Min(|rs|, from + 2 * |r.accepted|) &&
      (!d.pending ==> d.cursor == |rs|) && Concat(r.accepted) == Flatten(rs[from..d.cursor]) &&
      (forall k :: 0 <= k < |r.accepted| ==> |r.accepted[k]| == 25 || |r.accepted[k]| == 50)
  }

  // Taking the snapshot only marks the start: the same step then goes on from the first record due.
  lemma SnapshotBeginsCourse(r: Run, e: Env, lostAt: u32, startMs: u32)
    requires OnCourse(r, lostAt, startMs, None) && Ready(r.state, e)
    ensures WellFormed(WithSnapshot(r.state, e.ring)) && Ready(WithSnapshot(r.state, e.ring), e)
    ensures RetransmitOf(r.state, e) == RetransmitOf(WithSnapshot(r.state, e.ring), e)
    ensures OnCourse(Run(WithSnapshot(r.state, e.ring), r.accepted), lostAt, startMs, Some(e.ring))
  {
    hide FirstSince, SignedDistance, PacketOf;
    var from := FirstSince(e.ring, lostAt);
    assert e.ring[from..from] == [];
    EmptyIsEmpty();
  }

  lemma AttemptKeepsCourse(r: Run, e: Env, lostAt: u32, startMs: u32, rs: seq<Record>)
    requires WellFormed(r.state) && OnCourse(r, lostAt, startMs, Some(rs))
    ensures OnCourse(Booked(r, RetransmitOf(r.state, e), e), lostAt, startMs, Some(rs))
  {
    hide Flatten, Concat, SignedDistance, FirstSince;
    var d, from := r.state, FirstSince(rs, lostAt);
    if Ready(d, e) && d.cursor < |rs| && e.sendOk {
      ConcatAppend(r.accepted, PacketOf(rs, d.cursor));
      FlattenSlices(rs, from, d.cursor, Min(d.cursor + 2, |rs|));
    }
  }

  lemma StepKeepsCourse(r: Run, e: Env, lostAt: u32, startMs: u32, snapshot: Option<seq<Record>>)
    requires WellFormed(r.state) && OnCourse(r, lostAt, startMs, snapshot) && e.connected
    ensures OnCourse(Booked(r, Step(r.state, e), e), lostAt, startMs, Taken(snapshot, startMs, e))
  {
    assert NetworkOf(r.state, e) == r.state;
    hide Flatten, Concat, SignedDistance, FirstSince, PacketOf;
    if snapshot.Some? {
      AttemptKeepsCourse(r, e, lostAt, startMs, snapshot.value);
    } else if Ready(r.state, e) {
      SnapshotBeginsCourse(r, e, lostAt, startMs);
      AttemptKeepsCourse(Run(WithSnapshot(r.state, e.ring), r.accepted), e, lostAt, startMs, e.ring);
    }
  }

  lemma EmptyIsEmpty()
    ensures Concat([]) == Flatten([]) == []
  {
  }

  // Main result: within a session, whatever sends and writes fail and whatever is recorded in the
  // meantime, the accepted payloads are exactly the snapshot's records since the loss of the
  // network, up to the cursor: in order, each once, two to a packet. Nothing stays pending only
  // once all of them were accepted.
  lemma {:induction false} DeliveryIsExact(d: Delivery, envs: seq<Env>)
    requires WellFormed(d) && Session(d, envs)
    ensures OnCourse(Deliver(d, envs), d.lostAt, envs[0].nowMs, SessionSnapshot(envs[0].nowMs, envs))
    decreases |envs|
  {
    hide OnCourse, Step, Booked, Taken;
    var n, startMs := |envs| - 1, envs[0].nowMs;
    if n == 0 {
      SessionBegins(d, envs[0]);
      assert envs[..0] == [] && envs == [envs[0]];
    } else {
      assert envs[..n][0] == envs[0];
      DeliveryIsExact(d, envs[..n]);
      StepKeepsCourse(Deliver(d, envs[..n]), envs[n], d.lostAt, startMs, SessionSnapshot(startMs, envs[..n]));
    }
  }

  // The first step marks the start of the session; from there it is a step like any other.
  lemma SessionBegins(d: Delivery, e: Env)
    requires WellFormed(d) && Session(d, [e])
    ensures OnCourse(Booked(Run(d, []), Step(d, e), e), d.lostAt, e.nowMs, Taken(None, e.nowMs, e))
  {
    hide RetransmitOf;
    assert [e][0] == e;
    var marked := NetworkOf(d, e);
    assert NetworkOf(marked, e) == marked;
    StepKeepsCourse(Run(marked, []), e, d.lostAt, e.nowMs, None);
  }

  // A session whose turns all come and whose sends all succeed ends within the packets its
  // records need: each such turn moves the cursor on by one packet.
  lemma GoodTurnMovesOn(r: Run, e: Env, lostAt: u32, startMs: u32, rs: seq<Record>)
    requires WellFormed(r.state) && OnCourse(r, lostAt, startMs, Some(rs)) && r.state.pending
    requires e.connected && e.sendOk && e.saveOk && Ready(r.state, e)
    ensures var next := Step(r.state, e).state;
            next.cursor == Min(|rs|, r.state.cursor + 2) && (next.pending <==> r.state.cursor + 2 < |rs|)
  {
    hide Flatten, Concat, SignedDistance;
  }

  // ---- the service ----

  class Retransmission {
    const ring: Ring       // the application's ring, which other parts push into
    const snapshot: Ring
    var settings: Settings
    var networkKnown: bool
    var wasConnected: bool
    var pending: bool
    var lostAtUnix: u32
    var cursorInitialized: bool
    var cursor: nat
    var nextAtMs: u32
    var packetsSent: nat
    var sendFailures: nat
    var stateFailures: nat

    ghost predicate Valid()
      reads this, ring, ring.records, snapshot, snapshot.records
    {
      ring.Valid() && ring.capacity == CAPACITY && snapshot.Valid() && snapshot.capacity == CAPACITY &&
      ring != snapshot && ring.records != snapshot.records &&
      (cursorInitialized ==> cursor <= snapshot.size)
    }

    ghost function View(): (d: Delivery)
      requires Valid()
      reads this, ring, ring.records, snapshot, snapshot.records
      ensures WellFormed(d)
    {
      Delivery(networkKnown, wasConnected, pending, lostAtUnix, cursorInitialized, snapshot.Contents(), cursor, nextAtMs,
               packetsSent, sendFailures, stateFailures)
    }

    constructor (ring: Ring, settings: Settings, pending: bool, lostAtUnix: u32)
      requires ring.Valid() && ring.capacity == CAPACITY
      ensures Valid() && fresh(snapshot) && fresh(snapshot.records) && this.ring == ring && this.settings == settings
      ensures View() == Delivery(false, false, pending, lostAtUnix, false, [], 0, 0, 0, 0, 0)
    {
      this.ring, this.settings, this.pending, this.lostAtUnix := ring, settings, pending, lostAtUnix;
      snapshot := new Ring(CAPACITY);
      networkKnown, wasConnected, cursorInitialized, cursor, nextAtMs := false, false, false, 0, 0;
      packetsSent, sendFailures, stateFailures := 0, 0, 0;
    }

    method ProcessHistoryNetworkState(e: Env)
      requires Valid() && e.settings == settings
      modifies this`networkKnown, this`wasConnected, this`pending, this`lostAtUnix, this`cursorInitialized, this`nextAtMs,
               this`stateFailures
      ensures Valid() && View() == NetworkOf(old(View()), e)
    {
      hide Wrap32;
      if !networkKnown {
        networkKnown, wasConnected := true, e.connected;
        if e.connected && pending {
          cursorInitialized, nextAtMs := false, e.nowMs;
        }
        return;
      }
      if wasConnected && !e.connected && settings.storageEnabled && settings.retransmissionEnabled {
        if e.unixNow > 0 {
          if e.saveOk {
            pending, lostAtUnix := true, Wrap32(e.unixNow);
            cursorInitialized := false;
          } else {
            stateFailures := stateFailures + 1;
          }
        }
      } else if !wasConnected && e.connected && pending {
        cursorInitialized, nextAtMs := false, e.nowMs;
      }
      wasConnected := e.connected;
    }

    method FindFirstDue() returns (first: nat)
      requires Valid()
      ensures first == FirstSince(snapshot.Contents(), lostAtUnix)
    {
      hide Timestamp;
      first := 0;
      ghost var rs := snapshot.Contents();
      assert rs[0..] == rs;
      while first < snapshot.size
        invariant first <= snapshot.size && FirstSince(rs, lostAtUnix) == first + FirstSince(rs[first..], lostAtUnix)
      {
        var record := snapshot.Oldest(first);
        if record.Some? && Timestamp(record.value) >= lostAtUnix { break; }
        assert rs[first..][1..] == rs[first + 1..];
        first := first + 1;
      }
    }

    // The snapshot and the cursor on its first record due.
    method TakeSnapshot()
      requires Valid() && !cursorInitialized
      modifies this`cursorInitialized, this`cursor, snapshot, snapshot.records
      ensures Valid() && View() == WithSnapshot(old(View()), ring.Contents()) && ring.Contents() == old(ring.Contents())
    {
      hide FirstSince;
      snapshot.Assign(ring);
      cursor := FindFirstDue();
      cursorInitialized := true;
    }

    // The packing loop: whole records as long as the packet has room.
    method FillPayload() returns (payload: seq<byte>, recordsAdded: nat)
      requires Valid() && cursor < snapshot.size
      ensures payload == PacketOf(snapshot.Contents(), cursor) && recordsAdded == Min(2, snapshot.size - cursor)
    {
      hide Flatten;
      var output := new byte[PACKET_LIMIT](_ => 0);
      var written := 0;
      recordsAdded := 0;
      ghost var due := snapshot.Contents()[cursor..];
      assert Flatten(due[..0]) == [];
      while cursor + recordsAdded < snapshot.size
        invariant cursor + recordsAdded <= snapshot.size && written == 25 * recordsAdded <= PACKET_LIMIT
        invariant output[..written] == Flatten(due[..recordsAdded])
      {
        var record := snapshot.Oldest(cursor + recordsAdded);
        if record.None? { assert false; }
        if written + RECORD_LENGTH > PACKET_LIMIT { break; }
        OneMoreRecord(due, recordsAdded);
        PutRecord(output, written, record.value);
        written := written + RECORD_LENGTH;
        recordsAdded := recordsAdded + 1;
      }
      payload := output[..written];
      assert due[..recordsAdded] == snapshot.Contents()[cursor..cursor + recordsAdded];
    }

    method ClearPending(saveOk: bool)
      requires Valid()
      modifies this`pending, this`lostAtUnix, this`cursorInitialized, this`stateFailures
      ensures Valid() && View() == Cleared(old(View()), saveOk)
    {
      if saveOk {
        pending, lostAtUnix, cursorInitialized := false, 0, false;
      } else {
        stateFailures := stateFailures + 1;
      }
    }

    method SendNext(e: Env, later: u32) returns (payload: seq<byte>)
      requires Valid() && cursorInitialized && cursor < snapshot.size
      modifies this`cursor, this`packetsSent, this`sendFailures, this`nextAtMs,
               this`pending, this`lostAtUnix, this`cursorInitialized, this`stateFailures
      ensures Valid() && payload == PacketOf(snapshot.Contents(), old(cursor)) && View() == Sent(old(View()), e, later)
    {
      hide PacketOf;
      var recordsAdded;
      payload, recordsAdded := FillPayload();
      nextAtMs := later;
      if !e.sendOk {
        sendFailures := sendFailures + 1;
        return;
      }
      cursor := cursor + recordsAdded;
      packetsSent := packetsSent + 1;
      if cursor >= snapshot.size { ClearPending(e.saveOk); }
    }

    // One loop step with the turn for retransmission; returns what was handed to the radio too.
    method ProcessHistoryRetransmission(e: Env) returns (active: bool, offered: Option<seq<byte>>)
      requires Valid() && e.turn && e.settings == settings && e.ring == ring.Contents()
      modifies this, snapshot, snapshot.records
      ensures Valid() && settings == old(settings)
      ensures Attempt(View(), offered, active) == RetransmitOf(old(View()), e)
    {
      hide SignedDistance, PacketOf, Sent, FirstSince;
      if !settings.storageEnabled || !settings.retransmissionEnabled || !pending || !e.linked { return false, None; }
      if SignedDistance(e.nowMs, nextAtMs) < 0 { return false, None; }
      if !cursorInitialized { TakeSnapshot(); }
      var later := Wrap32(e.nowMs + settings.retransmissionSeconds as int * 1000);
      if cursor >= snapshot.size {
        ClearPending(e.saveOk);
        if !e.saveOk {
          nextAtMs := later;
          return true, None;
        }
        return false, None;
      }
      var payload := SendNext(e, later);
      return true, Some(payload);
    }
  }
}
