// History queries from the network: all records of a time range, or those closest to a point in
// time, are copied out of the ring and sent packet by packet.
module HistoryQuery {
  import opened Words
  import opened HistoryRing
  import opened HistoryImage
  import opened HistoryStore
  import opened HistoryDelivery
  import opened Downlink

  const REPLY_CHANNEL: byte := 0xfc

  // The records with timestamps in a range, in order.
  function Between(rs: seq<Record>, first: u32, last: u32): (selected: seq<Record>)
    ensures |selected| <= |rs|
  {
    if rs == [] then []
    else
      var n := |rs| - 1;
      var earlier := Between(rs[..n], first, last);
      if first <= Timestamp(rs[n]) <= last then earlier + [rs[n]] else earlier
  }

  function Distance(a: u32, b: u32): nat {
    if a >= b then a - b else b - a
  }

  // The timestamp the search settles on: within tolerance, as close as possible, the earliest
  // stored one of several equally close.
  function Closest(rs: seq<Record>, at: u32, tolerance: nat): Option<u32> {
    if rs == [] then None
    else
      var n := |rs| - 1;
      var best, here := Closest(rs[..n], at, tolerance), Timestamp(rs[n]);
      if Distance(here, at) <= tolerance && (best.None? || Distance(here, at) < Distance(best.value, at)) then Some(here) else best
  }

  predicate IsQuery(c: Command) {
    c.HistoryPoint? || c.HistoryRange? || c.HistoryStop?
  }

  // What a query asks for.
  function Selection(rs: seq<Record>, c: Command, tolerance: nat): seq<Record>
    requires c.HistoryPoint? || c.HistoryRange?
  {
    match c
    case HistoryRange(first, last) => Between(rs, first, last)
    case HistoryPoint(at) =>
      match Closest(rs, at, tolerance)
      case None => []
      case Some(nearest) => Between(rs, nearest, nearest)
  }

  // ---- what is selected ----

  // A range query selects every record of the range as often as it is stored, and no other.
  lemma {:induction false} BetweenIsExact(rs: seq<Record>, first: u32, last: u32, r: Record)
    ensures multiset(Between(rs, first, last))[r] == if first <= Timestamp(r) <= last then multiset(rs)[r] else 0
  {
    hide Timestamp;
    if rs == [] {
    } else {
      var n := |rs| - 1;
      BetweenIsExact(rs[..n], first, last, r);
      assert rs == rs[..n] + [rs[n]];
    }
  }

  // A selection keeps the stored order: queries of parts of the ring follow one another.
  lemma {:induction false} BetweenKeepsOrder(rs: seq<Record>, more: seq<Record>, first: u32, last: u32)
    ensures Between(rs + more, first, last) == Between(rs, first, last) + Between(more, first, last)
    decreases |more|
  {
    hide Timestamp;
    if more == [] {
      assert rs + more == rs;
    } else {
      var n := |more| - 1;
      BetweenKeepsOrder(rs, more[..n], first, last);
      assert (rs + more)[..|rs| + n] == rs + more[..n];
    }
  }

  // The positions of exactly the records with timestamps in a range, in stored order.
  ghost predicate Positions(rs: seq<Record>, first: u32, last: u32, at: seq<nat>) {
    (forall i, j :: 0 <= i < j < |at| ==> at[i] < at[j]) &&
    (forall k :: k in at <==> 0 <= k < |rs| && first <= Timestamp(rs[k]) <= last)
  }

  // What is picked are the records of the range: each as often as it is stored, in stored order.
  ghost predicate Picks(rs: seq<Record>, first: u32, last: u32, picked: seq<Record>) {
    exists at :: Positions(rs, first, last, at) && RecordsAt(rs, at, picked)
  }

  predicate RecordsAt(rs: seq<Record>, at: seq<nat>, picked: seq<Record>) {
    |at| == |picked| && forall i :: 0 <= i < |at| ==> at[i] < |rs| && picked[i] == rs[at[i]]
  }

  lemma {:induction false} BetweenPicks(rs: seq<Record>, first: u32, last: u32) returns (at: seq<nat>)
    ensures Positions(rs, first, last, at) && RecordsAt(rs, at, Between(rs, first, last))
  {
    hide Timestamp, Positions, RecordsAt;
    if rs == [] {
      at := [];
      NoPositions(first, last);
    } else {
      var n := |rs| - 1;
      var earlier := BetweenPicks(rs[..n], first, last);
      at := if first <= Timestamp(rs[n]) <= last then earlier + [n] else earlier;
      PositionsGrow(rs, first, last, earlier);
      RecordsGrow(rs, earlier, Between(rs[..n], first, last));
    }
  }

  lemma NoPositions(first: u32, last: u32)
    ensures Positions([], first, last, []) && RecordsAt([], [], [])
  {
  }

  lemma PositionsGrow(rs: seq<Record>, first: u32, last: u32, at: seq<nat>)
    requires rs != [] && Positions(rs[..|rs| - 1], first, last, at)
    ensures var n := |rs| - 1; Positions(rs, first, last, if first <= Timestamp(rs[n]) <= last then at + [n] else at)
  {
    hide Timestamp;
    var n := |rs| - 1;
    var before := rs[..n];
    var more := if first <= Timestamp(rs[n]) <= last then at + [n] else at;
    forall k
      ensures k in more <==> 0 <= k < |rs| && first <= Timestamp(rs[k]) <= last
    {
      if 0 <= k < n { assert before[k] == rs[k]; }
      assert k in more <==> k in at || (k == n && first <= Timestamp(rs[n]) <= last);
    }
    forall i, j | 0 <= i < j < |more|
      ensures more[i] < more[j]
    {
      assert more[i] == at[i] && at[i] in at;
    }
  }

  lemma RecordsGrow(rs: seq<Record>, at: seq<nat>, picked: seq<Record>)
    requires rs != [] && RecordsAt(rs[..|rs| - 1], at, picked)
    ensures RecordsAt(rs, at, picked) && RecordsAt(rs, at + [|rs| - 1], picked + [rs[|rs| - 1]])
  {
  }

  // The search finds nothing exactly when no record is within tolerance. What it finds is the
  // timestamp of a stored record, no record is closer, and none stored before it is as close.
  ghost predicate IsNearest(rs: seq<Record>, at: u32, tolerance: nat, found: Option<u32>) {
    match found
    case None => forall k :: 0 <= k < |rs| ==> Distance(Timestamp(rs[k]), at) > tolerance
    case Some(nearest) =>
      Distance(nearest, at) <= tolerance &&
      (forall k :: 0 <= k < |rs| ==> Distance(Timestamp(rs[k]), at) >= Distance(nearest, at)) &&
      exists m :: 0 <= m < |rs| && Timestamp(rs[m]) == nearest &&
                  forall k :: 0 <= k < m ==> Distance(Timestamp(rs[k]), at) > Distance(nearest, at)
  }

  lemma {:induction false} ClosestIsNearest(rs: seq<Record>, at: u32, tolerance: nat)
    ensures IsNearest(rs, at, tolerance, Closest(rs, at, tolerance))
  {
    hide Timestamp, Distance;
    if rs == [] {
    } else {
      var n := |rs| - 1;
      var before := rs[..n];
      ClosestIsNearest(before, at, tolerance);
      assert forall k :: 0 <= k < n ==> before[k] == rs[k];
      var best, found := Closest(before, at, tolerance), Closest(rs, at, tolerance);
      if best.Some? && found == best {
        var m :| 0 <= m < n && Timestamp(before[m]) == best.value &&
                 forall k :: 0 <= k < m ==> Distance(Timestamp(before[k]), at) > Distance(best.value, at);
        assert Timestamp(rs[m]) == best.value;
      } else if found.Some? {
        assert Timestamp(rs[n]) == found.value;
      }
    }
  }

  // ---- answering a query ----

  // The application's query state; `records` are the ones copied out of the ring.
  datatype Query = Query(active: bool, records: seq<Record>, cursor: nat, nextAt: u32, packetsSent: nat, sendFailures: nat)

  datatype Answer = Answer(state: Query, reply: Option<seq<byte>>, ok: bool)

  function ReplyType(c: Command): byte {
    if c.HistoryPoint? then 0x6b else 0x6c
  }

  function AnswerOf(q: Query, c: Command, ring: seq<Record>, tolerance: nat, nowMs: u32, intervalSeconds: u16, sendOk: bool): Answer
    requires IsQuery(c)
  {
    if c.HistoryStop? then Answer(q.(active := false, records := [], cursor := 0), None, true)
    else if c.HistoryRange? && c.from > c.to then
      Answer(q.(active := false), Some([REPLY_CHANNEL, ReplyType(c), 0x01]), sendOk)
    else
      var selected := Selection(ring, c, tolerance);
      if selected == [] then
        Answer(q.(active := false, records := [], cursor := 0), Some([REPLY_CHANNEL, ReplyType(c), 0x02]), sendOk)
      else
        var state :=
          if sendOk
          then q.(active := true, records := selected, cursor := 0, nextAt := Wrap32(nowMs + intervalSeconds as int * 1000))
          else q.(active := false, records := [], cursor := 0);
        Answer(state, Some([REPLY_CHANNEL, ReplyType(c), 0x00]), sendOk)
  }

  // ---- sending the answer ----

  datatype Turn = Turn(nowMs: u32, linked: bool, intervalSeconds: u16, sendOk: bool)

  datatype Sending = Sending(state: Query, offered: Option<seq<byte>>, used: bool)

  predicate Sound(q: Query) {
    q.cursor <= |q.records|
  }

  function TurnOf(q: Query, t: Turn): (s: Sending)
    requires Sound(q)
    ensures Sound(s.state)
  {
    if !q.active || !t.linked || SignedDistance(t.nowMs, q.nextAt) < 0 then Sending(q, None, false)
    else if q.cursor == |q.records| then Sending(q.(active := false), None, false)
    else
      var later := q.(nextAt := Wrap32(t.nowMs + t.intervalSeconds as int * 1000));
      var payload := Some(PacketOf(q.records, q.cursor));
      if !t.sendOk then Sending(later.(sendFailures := q.sendFailures + 1), payload, true)
      else
        var sent := later.(packetsSent := q.packetsSent + 1);
        Sending(if q.cursor + 2 >= |q.records| then sent.(active := false, records := [], cursor := 0)
                else sent.(cursor := q.cursor + 2), payload, true)
  }

  datatype Sendings = Sendings(state: Query, accepted: seq<seq<byte>>)

  // Uninterrupted turns after a query.
  function SendAll(q: Query, turns: seq<Turn>): (s: Sendings)
    requires Sound(q)
    ensures Sound(s.state)
  {
    if turns == [] then Sendings(q, [])
    else
      var n := |turns| - 1;
      var earlier := SendAll(q, turns[..n]);
      var a := TurnOf(earlier.state, turns[n]);
      Sendings(a.state, if a.offered.Some? && turns[n].sendOk then earlier.accepted + [a.offered.value] else earlier.accepted)
  }

  // Where the delivery of a selection stands.
  predicate Underway(s: Sendings, selected: seq<Record>) {
    var sent := Min(|selected|, 2 * |s.accepted|);
    Concat(s.accepted) == Flatten(selected[..sent]) && (s.state.active <==> sent < |selected|) &&
    (s.state.active ==> s.state.records == selected && s.state.cursor == sent)
  }

  lemma TurnKeepsUnderway(s: Sendings, t: Turn, selected: seq<Record>)
    requires Sound(s.state) && Underway(s, selected)
    ensures var a := TurnOf(s.state, t);
            Underway(Sendings(a.state, if a.offered.Some? && t.sendOk then s.accepted + [a.offered.value] else s.accepted), selected)
  {
    hide Flatten, Concat, SignedDistance;
    var a, q := TurnOf(s.state, t), s.state;
    if a.offered.Some? && t.sendOk {
      ConcatAppend(s.accepted, PacketOf(selected, q.cursor));
      FlattenSlices(selected, 0, q.cursor, Min(q.cursor + 2, |selected|));
      assert forall k :: 0 <= k <= |selected| ==> selected[0..k] == selected[..k];
    }
  }

  // The records a query is for: those of its range, or all with the timestamp nearest to its point
  // within tolerance.
  ghost predicate Chosen(rs: seq<Record>, c: Command, tolerance: nat, records: seq<Record>)
    requires c.HistoryPoint? || c.HistoryRange?
  {
    match c
    case HistoryRange(first, last) => Picks(rs, first, last, records)
    case HistoryPoint(at) =>
      if records == [] then IsNearest(rs, at, tolerance, None)
      else exists nearest :: IsNearest(rs, at, tolerance, Some(nearest)) && Picks(rs, nearest, nearest, records)
  }

  lemma SelectionIsChosen(rs: seq<Record>, c: Command, tolerance: nat)
    requires c.HistoryPoint? || c.HistoryRange?
    ensures Chosen(rs, c, tolerance, Selection(rs, c, tolerance))
  {
    hide Timestamp, Distance;
    if c.HistoryRange? {
      var at := BetweenPicks(rs, c.from, c.to);
    } else {
      ClosestIsNearest(rs, c.at, tolerance);
      var found := Closest(rs, c.at, tolerance);
      if found.Some? {
        var at := BetweenPicks(rs, found.value, found.value);
        var m :| 0 <= m < |rs| && Timestamp(rs[m]) == found.value;
        assert m in at;
        assert Picks(rs, found.value, found.value, Between(rs, found.value, found.value));
      }
    }
  }

  // Distances count seconds in either direction.
  lemma DistanceMeans(a: u32, b: u32, d: nat)
    ensures Distance(a, b) <= d <==> b - d <= a <= b + d
  {
  }

  // Which reply answers which query, and whether anything is sent after it.
  ghost predicate Replied(a: Answer, c: Command, records: seq<Record>, sendOk: bool)
    requires IsQuery(c)
  {
    var kind := if c.HistoryPoint? then 0x6b else 0x6c;
    match c
    case HistoryStop => a.reply == None && a.ok && !a.state.active
    case _ =>
      a.ok == sendOk &&
      if c.HistoryRange? && c.from > c.to then a.reply == Some([0xfc, kind, 0x01]) && !a.state.active
      else if records == [] then a.reply == Some([0xfc, kind, 0x02]) && !a.state.active
      else a.reply == Some([0xfc, kind, 0x00]) && (a.state.active <==> sendOk)
  }

  // Main result: a query for a range asks for exactly the records of the range, in stored order, and
  // one for a point for all records at the nearest timestamp within tolerance. A range upside down
  // is answered with code 1, a query for nothing with 2, any other with 0. After an accepted answer
  // that no other command interrupts, the accepted payloads are exactly those records so far, and
  // the query ends exactly when all of them were accepted; otherwise nothing is sent at all.
  lemma QueryDeliversSelection(q: Query, c: Command, ring: seq<Record>, tolerance: nat, nowMs: u32,
                               intervalSeconds: u16, sendOk: bool, turns: seq<Turn>) returns (records: seq<Record>)
    requires Sound(q) && IsQuery(c)
    ensures !c.HistoryStop? ==> Chosen(ring, c, tolerance, records)
    ensures var a := AnswerOf(q, c, ring, tolerance, nowMs, intervalSeconds, sendOk);
            Sound(a.state) && Replied(a, c, records, sendOk) &&
            if a.state.active then Underway(SendAll(a.state, turns), records)
            else SendAll(a.state, turns) == Sendings(a.state, [])
  {
    hide Underway, TurnOf, Selection, Chosen, Distance, Timestamp, SendAll;
    records := [];
    var a := AnswerOf(q, c, ring, tolerance, nowMs, intervalSeconds, sendOk);
    if !c.HistoryStop? {
      records := Selection(ring, c, tolerance);
      SelectionIsChosen(ring, c, tolerance);
    }
    if a.state.active {
      SendingStaysUnderway(a.state, records, turns);
    } else {
      NothingIsSent(a.state, turns);
    }
  }

  lemma {:induction false} SendingStaysUnderway(begun: Query, selected: seq<Record>, turns: seq<Turn>)
    requires begun.active && begun.records == selected != [] && begun.cursor == 0
    ensures Underway(SendAll(begun, turns), selected)
    decreases |turns|
  {
    hide Underway, TurnOf;
    if turns == [] {
      BeginsUnderway(begun, selected);
    } else {
      var n := |turns| - 1;
      SendingStaysUnderway(begun, selected, turns[..n]);
      TurnKeepsUnderway(SendAll(begun, turns[..n]), turns[n], selected);
    }
  }

  // Without a query nothing is sent.
  lemma {:induction false} NothingIsSent(q: Query, turns: seq<Turn>)
    requires Sound(q) && !q.active
    ensures SendAll(q, turns) == Sendings(q, [])
    decreases |turns|
  {
    if turns == [] {
    } else {
      NothingIsSent(q, turns[..|turns| - 1]);
    }
  }

  // How many payloads were handed to the radio.
  function Offers(q: Query, turns: seq<Turn>): nat
    requires Sound(q)
  {
    if turns == [] then 0
    else
      var n := |turns| - 1;
      Offers(q, turns[..n]) + (if TurnOf(SendAll(q, turns[..n]).state, turns[n]).offered.Some? then 1 else 0)
  }

  // Each of them is counted once, as sent or as failed.
  lemma {:induction false} OffersAreCounted(q: Query, turns: seq<Turn>)
    requires Sound(q)
    ensures var s := SendAll(q, turns);
            s.state.packetsSent == q.packetsSent + |s.accepted| &&
            s.state.sendFailures + |s.accepted| == q.sendFailures + Offers(q, turns)
    decreases |turns|
  {
    hide PacketOf, SignedDistance;
    if turns == [] {
    } else {
      OffersAreCounted(q, turns[..|turns| - 1]);
    }
  }

  // Payloads of a running query are one interval apart: after one was handed to the radio, the next
  // is handed over by the first turn with a link at or after the interval's end, and by none before.
  lemma TurnsAreSpaced(q: Query, t: Turn, next: Turn, elapsed: nat)
    requires Sound(q) && TurnOf(q, t).offered.Some? && TurnOf(q, t).state.active
    requires elapsed < TWO_31 && next.nowMs == Wrap32(t.nowMs + elapsed)
    ensures TurnOf(TurnOf(q, t).state, next).offered.Some? <==> next.linked && elapsed >= 1000 * t.intervalSeconds
  {
    hide PacketOf;
    var later := TurnOf(q, t).state;
    assert later.nextAt == Wrap32(t.nowMs + 1000 * t.intervalSeconds);
    DistanceOf(t.nowMs + elapsed, t.nowMs + 1000 * t.intervalSeconds);
  }

  lemma BeginsUnderway(q: Query, selected: seq<Record>)
    requires q.active && q.records == selected != [] && q.cursor == 0
    ensures Underway(Sendings(q, []), selected)
  {
    EmptyIsEmpty();
    assert selected[..0] == [];
  }

  // ---- the service ----

  class Service {
    const ring: Ring
    const queryRecords: array<Record>
    var active: bool
    var count: nat
    var cursor: nat
    var nextAtMs: u32
    var packetsSent: nat
    var sendFailures: nat

    ghost predicate Valid()
      reads this, ring, ring.records
    {
      ring.Valid() && ring.capacity == CAPACITY && queryRecords.Length == CAPACITY && queryRecords != ring.records &&
      cursor <= count <= CAPACITY
    }

    ghost function View(): (q: Query)
      requires Valid()
      reads this, ring, ring.records, queryRecords
      ensures Sound(q)
    {
      Query(active, queryRecords[..count], cursor, nextAtMs, packetsSent, sendFailures)
    }

    constructor (ring: Ring)
      requires ring.Valid() && ring.capacity == CAPACITY
      ensures Valid() && fresh(queryRecords) && this.ring == ring && View() == Query(false, [], 0, 0, 0, 0)
    {
      this.ring := ring;
      queryRecords := new Record[CAPACITY](_ => seq(25, _ => 0));
      active, count, cursor, nextAtMs, packetsSent, sendFailures := false, 0, 0, 0, 0, 0;
    }

    // The search for the closest timestamp.
    method FindClosest(at: u32, tolerance: nat) returns (found: Option<u32>)
      requires Valid()
      ensures found == Closest(ring.Contents(), at, tolerance)
    {
      hide Timestamp, Distance;
      found := None;
      ghost var rs := ring.Contents();
      for i := 0 to ring.size
        invariant found == Closest(rs[..i], at, tolerance)
      {
        var record := ring.Oldest(i);
        var here := Timestamp(record.value);
        assert rs[..i + 1][..i] == rs[..i];
        if Distance(here, at) <= tolerance && (found.None? || Distance(here, at) < Distance(found.value, at)) {
          found := Some(here);
        }
      }
      assert rs[..ring.size] == rs;
    }

    // Copies the records of a range out of the ring; the array has room for the whole ring.
    method Select(first: u32, last: u32)
      requires Valid() && count == 0 && cursor == 0
      modifies this`count, queryRecords
      ensures Valid() && queryRecords[..count] == Between(ring.Contents(), first, last)
    {
      hide Timestamp;
      ghost var rs := ring.Contents();
      for i := 0 to ring.size
        invariant Valid() && count <= i && ring.Contents() == rs
        invariant queryRecords[..count] == Between(rs[..i], first, last)
      {
        if count >= CAPACITY { assert false; }
        var record := ring.Oldest(i);
        ghost var selected := queryRecords[..count];
        assert rs[..i + 1][..i] == rs[..i];
        if first <= Timestamp(record.value) <= last {
          queryRecords[count] := record.value;
          count := count + 1;
          assert queryRecords[..count] == selected + [record.value];
        }
      }
      assert rs[..ring.size] == rs;
    }

    method CopySelection(c: Command, tolerance: nat)
      requires Valid() && count == 0 && cursor == 0 && (c.HistoryPoint? || c.HistoryRange?)
      modifies this`count, queryRecords
      ensures Valid() && queryRecords[..count] == Selection(ring.Contents(), c, tolerance)
    {
      if c.HistoryPoint? {
        var found := FindClosest(c.at, tolerance);
        if found.Some? { Select(found.value, found.value); }
      } else {
        Select(c.from, c.to);
      }
    }

    // `tolerance` is the report interval in seconds; `sendOk` is what the radio says of the reply.
    method ApplyHistoryQueryCommand(c: Command, tolerance: nat, nowMs: u32, intervalSeconds: u16, sendOk: bool)
      returns (ok: bool, reply: Option<seq<byte>>)
      requires Valid() && IsQuery(c)
      modifies this`active, this`count, this`cursor, this`nextAtMs, queryRecords
      ensures Valid()
      ensures Answer(View(), reply, ok) == AnswerOf(old(View()), c, old(ring.Contents()), tolerance, nowMs, intervalSeconds, sendOk)
    {
      hide Selection;
      if c.HistoryStop? {
        active, count, cursor := false, 0, 0;
        return true, None;
      }
      var replyType := ReplyType(c);
      if c.HistoryRange? && c.from > c.to {
        active := false;
        return sendOk, Some([REPLY_CHANNEL, replyType, 0x01]);
      }
      count, cursor := 0, 0;
      CopySelection(c, tolerance);
      if count == 0 {
        active := false;
        return sendOk, Some([REPLY_CHANNEL, replyType, 0x02]);
      }
      if !sendOk {
        active, count := false, 0;
        return false, Some([REPLY_CHANNEL, replyType, 0x00]);
      }
      active := true;
      nextAtMs := Wrap32(nowMs + intervalSeconds as int * 1000);
      return true, Some([REPLY_CHANNEL, replyType, 0x00]);
    }

    // The packing loop.
    method FillPayload() returns (payload: seq<byte>, recordsAdded: nat)
      requires Valid()
      ensures payload == PacketOf(queryRecords[..count], cursor) && recordsAdded == Min(2, count - cursor)
    {
      hide Flatten;
      var output := new byte[PACKET_LIMIT](_ => 0);
      var written := 0;
      recordsAdded := 0;
      ghost var due := queryRecords[cursor..count];
      assert Flatten(due[..0]) == [];
      while cursor + recordsAdded < count
        invariant cursor + recordsAdded <= count && written == 25 * recordsAdded <= PACKET_LIMIT
        invariant output[..written] == Flatten(due[..recordsAdded])
      {
        if written + RECORD_LENGTH > PACKET_LIMIT { break; }
        OneMoreRecord(due, recordsAdded);
        PutRecord(output, written, queryRecords[cursor + recordsAdded]);
        written := written + RECORD_LENGTH;
        recordsAdded := recordsAdded + 1;
      }
      payload := output[..written];
      assert due[..recordsAdded] == queryRecords[..count][cursor..cursor + recordsAdded];
    }

    method ProcessHistoryQuery(t: Turn) returns (used: bool, offered: Option<seq<byte>>)
      requires Valid()
      modifies this`active, this`count, this`cursor, this`nextAtMs, this`packetsSent, this`sendFailures
      ensures Valid() && Sending(View(), offered, used) == TurnOf(old(View()), t)
    {
      hide SignedDistance, PacketOf;
      if !active || !t.linked { return false, None; }
      if SignedDistance(t.nowMs, nextAtMs) < 0 { return false, None; }
      var payload, recordsAdded := FillPayload();
      if recordsAdded == 0 {
        active := false;
        return false, None;
      }
      nextAtMs := Wrap32(t.nowMs + t.intervalSeconds as int * 1000);
      if !t.sendOk {
        sendFailures := sendFailures + 1;
        return true, Some(payload);
      }
      cursor := cursor + recordsAdded;
      packetsSent := packetsSent + 1;
      if cursor >= count {
        active, count, cursor := false, 0, 0;
      }
      return true, Some(payload);
    }
  }
}
