// How a report is cut into packets: the greedy filling of one packet, and the packing it yields.
module ReportPacking {
  import opened Words
  import opened Channel
  import opened Uplink

  const PAYLOAD_LIMIT: int := 51
  const ENCODED_LIMIT: int := 24

  // The last poll result of a slot, if there is one.
  datatype Sample =
    | Absent
    | Present(channel: ChannelConfig, success: bool, valueCount: byte, values: seq<Scalar>)

  type Snapshot = s: seq<Sample> | |s| == 32 && forall k :: 0 <= k < 32 ==> s[k].Present? ==> |s[k].values| == 2
    witness seq(32, _ => Absent)

  function Encoding(fpu: Fpu, s: Sample): Encoded
    requires s.Present? && |s.values| == 2
  {
    if s.success then PollSuccess(fpu, s.channel, s.values, s.valueCount, ENCODED_LIMIT)
    else PollFailure(s.channel, ENCODED_LIMIT)
  }

  // The bytes a slot contributes to a report.
  function SlotBytes(fpu: Fpu, report: Snapshot, slot: nat): seq<byte>
    requires slot < 32
  {
    if report[slot].Absent? || Encoding(fpu, report[slot]).Failed? then []
    else Encoding(fpu, report[slot]).bytes
  }

  // The encodings of slots from..to, in slot order.
  function RangeBytes(fpu: Fpu, report: Snapshot, from: nat, to: nat): seq<byte>
    requires from <= to <= 32
    decreases 32 - from
  {
    if from == to then [] else SlotBytes(fpu, report, from) + RangeBytes(fpu, report, from + 1, to)
  }

  predicate Encodable(fpu: Fpu, report: Snapshot) {
    forall k :: 0 <= k < 32 ==> report[k].Present? ==> Encoding(fpu, report[k]).Bytes?
  }

  datatype Fill = Filled(payload: seq<byte>, next: nat) | EncodeFailed | TooLarge

  // Filling one packet from slot `scan` on, after the bytes already in it.
  function FillFrom(fpu: Fpu, report: Snapshot, scan: nat, payload: seq<byte>): Fill
    requires scan <= 32
    decreases 32 - scan
  {
    if scan == 32 then Filled(payload, 32)
    else if report[scan].Absent? then FillFrom(fpu, report, scan + 1, payload)
    else match Encoding(fpu, report[scan])
      case Failed(_) => EncodeFailed
      case Bytes(encoded) =>
        if |payload| + |encoded| > PAYLOAD_LIMIT then (if payload == [] then TooLarge else Filled(payload, scan))
        else FillFrom(fpu, report, scan + 1, payload + encoded)
  }

  // An encoding has 3 to 24 bytes.
  lemma EncodingSize(fpu: Fpu, s: Sample)
    requires s.Present? && |s.values| == 2 && Encoding(fpu, s).Bytes?
    ensures 3 <= |Encoding(fpu, s).bytes| <= ENCODED_LIMIT
  {
    if s.success { FramesSize(fpu, s.channel, s.values, 0, ENCODED_LIMIT); }
  }

  lemma {:induction false} FramesSize(fpu: Fpu, c: ChannelConfig, values: seq<Scalar>, index: byte, room: nat)
    requires ValidChannelConfig(c) && index <= c.quantity <= |values|
    requires ValueFrames(fpu, c, values, index, room).Bytes?
    ensures (if index < c.quantity then 4 else 0) <= |ValueFrames(fpu, c, values, index, room).bytes| <= room
    decreases c.quantity - index
  {
    hide ScalarBytes;
    if index == c.quantity {
    } else {
      FramesSize(fpu, c, values, index + 1, room - 4 - |ScalarBytes(fpu, c, values[index]).value|);
    }
  }

  // A filled packet holds whole slots: the ones from `scan` up to where it stopped. It stops at
  // the end, or before a slot that no longer fits.
  lemma {:induction false} FillHoldsWholeSlots(fpu: Fpu, report: Snapshot, scan: nat, payload: seq<byte>)
    requires scan <= 32 && |payload| <= PAYLOAD_LIMIT
    requires FillFrom(fpu, report, scan, payload).Filled?
    ensures var f := FillFrom(fpu, report, scan, payload);
            scan <= f.next <= 32 && f.payload == payload + RangeBytes(fpu, report, scan, f.next) &&
            |f.payload| <= PAYLOAD_LIMIT &&
            (f.next < 32 ==> f.payload != [] && |f.payload| + |SlotBytes(fpu, report, f.next)| > PAYLOAD_LIMIT)
    decreases 32 - scan
  {
    hide Encoding;
    assert payload + [] == payload;
    if scan == 32 {
    } else {
      var encoded := SlotBytes(fpu, report, scan);
      var f := FillFrom(fpu, report, scan, payload);
      if report[scan].Absent? || |payload| + |encoded| <= PAYLOAD_LIMIT {
        assert report[scan].Absent? ==> payload + encoded == payload;
        FillHoldsWholeSlots(fpu, report, scan + 1, payload + encoded);
        OneMoreSlot(fpu, report, scan, f.next, payload);
      }
    }
  }

  lemma OneMoreSlot(fpu: Fpu, report: Snapshot, scan: nat, next: nat, payload: seq<byte>)
    requires scan < next <= 32
    ensures (payload + SlotBytes(fpu, report, scan)) + RangeBytes(fpu, report, scan + 1, next)
         == payload + RangeBytes(fpu, report, scan, next)
  {
    hide SlotBytes, Encoding;
    var slot, later := SlotBytes(fpu, report, scan), RangeBytes(fpu, report, scan + 1, next);
    assert RangeBytes(fpu, report, scan, next) == slot + later;
    assert (payload + slot) + later == payload + (slot + later);
  }

  // One channel always fits into an empty packet, so a packet never comes out too large.
  lemma {:induction false} FillNeverTooLarge(fpu: Fpu, report: Snapshot, scan: nat, payload: seq<byte>)
    requires scan <= 32
    ensures FillFrom(fpu, report, scan, payload) != TooLarge
    decreases 32 - scan
  {
    hide Encoding;
    if scan < 32 && report[scan].Present? && Encoding(fpu, report[scan]).Bytes? {
      EncodingSize(fpu, report[scan]);
      FillNeverTooLarge(fpu, report, scan + 1, payload + Encoding(fpu, report[scan]).bytes);
    } else if scan < 32 && report[scan].Absent? {
      FillNeverTooLarge(fpu, report, scan + 1, payload);
    }
  }

  lemma {:induction false} FillNeverFails(fpu: Fpu, report: Snapshot, scan: nat, payload: seq<byte>)
    requires scan <= 32 && Encodable(fpu, report)
    ensures FillFrom(fpu, report, scan, payload).Filled?
    decreases 32 - scan
  {
    hide Encoding;
    if scan < 32 && report[scan].Present? {
      EncodingSize(fpu, report[scan]);
      FillNeverFails(fpu, report, scan + 1, payload + SlotBytes(fpu, report, scan));
    } else if scan < 32 {
      FillNeverFails(fpu, report, scan + 1, payload);
    }
  }

  // Greedy: whatever range fits into a packet is reached.
  lemma {:induction false} FillReaches(fpu: Fpu, report: Snapshot, scan: nat, payload: seq<byte>, to: nat)
    requires scan <= to <= 32 && Encodable(fpu, report)
    requires |payload| + |RangeBytes(fpu, report, scan, to)| <= PAYLOAD_LIMIT
    ensures FillFrom(fpu, report, scan, payload).Filled? && FillFrom(fpu, report, scan, payload).next >= to
    decreases 32 - scan
  {
    hide Encoding;
    if scan == to {
      FillNeverFails(fpu, report, scan, payload);
      FillHoldsWholeSlots(fpu, report, scan, payload);
    } else if report[scan].Absent? {
      FillReaches(fpu, report, scan + 1, payload, to);
    } else {
      FillReaches(fpu, report, scan + 1, payload + SlotBytes(fpu, report, scan), to);
    }
  }

  // ---- the packing ----

  // The packets a report is sent in, from a cursor on.
  function Packets(fpu: Fpu, report: Snapshot, cursor: nat): seq<seq<byte>>
    requires cursor <= 32
    decreases 32 - cursor
  {
    match FillFrom(fpu, report, cursor, [])
    case Filled(payload, next) =>
      if payload == [] then []
      else
        FillHoldsWholeSlots(fpu, report, cursor, []);
        if next == cursor then [] else [payload] + Packets(fpu, report, next)
    case _ => []
  }

  lemma {:induction false} RangeSplits(fpu: Fpu, report: Snapshot, from: nat, middle: nat, to: nat)
    requires from <= middle <= to <= 32
    ensures RangeBytes(fpu, report, from, to) == RangeBytes(fpu, report, from, middle) + RangeBytes(fpu, report, middle, to)
    decreases middle - from
  {
    hide SlotBytes;
    if from == middle {
    } else {
      RangeSplits(fpu, report, from + 1, middle, to);
    }
  }

  // A packet that starts at the cursor moves past it.
  lemma FirstPacket(fpu: Fpu, report: Snapshot, cursor: nat)
    requires cursor <= 32 && Encodable(fpu, report)
    ensures var f := FillFrom(fpu, report, cursor, []);
            f.Filled? && cursor <= f.next <= 32 && f.payload == RangeBytes(fpu, report, cursor, f.next) &&
            |f.payload| <= PAYLOAD_LIMIT && (f.next < 32 ==> f.payload != []) &&
            (cursor == 32 ==> Packets(fpu, report, cursor) == []) &&
            (f.payload == [] ==> RangeBytes(fpu, report, cursor, 32) == [] && Packets(fpu, report, cursor) == []) &&
            (f.payload != [] ==> f.next > cursor && Packets(fpu, report, cursor) == [f.payload] + Packets(fpu, report, f.next))
  {
    FillNeverFails(fpu, report, cursor, []);
    FillHoldsWholeSlots(fpu, report, cursor, []);
    var f := FillFrom(fpu, report, cursor, []);
    assert [] + RangeBytes(fpu, report, cursor, f.next) == RangeBytes(fpu, report, cursor, f.next);
  }

  // Exactness: the packets concatenate to the slot-order encoding, each slot whole and once.
  lemma {:induction false} PacketsConcatenate(fpu: Fpu, report: Snapshot, cursor: nat)
    requires cursor <= 32 && Encodable(fpu, report)
    ensures Concat(Packets(fpu, report, cursor)) == RangeBytes(fpu, report, cursor, 32)
    decreases 32 - cursor
  {
    hide FillFrom;
    FirstPacket(fpu, report, cursor);
    var f := FillFrom(fpu, report, cursor, []);
    if f.payload == [] {
    } else {
      PacketsConcatenate(fpu, report, f.next);
      RangeSplits(fpu, report, cursor, f.next, 32);
      assert ([f.payload] + Packets(fpu, report, f.next))[1..] == Packets(fpu, report, f.next);
    }
  }

  // A way to cut slots cuts[0]..cuts[n] into n packets of whole slots within the limit.
  ghost predicate Partition(fpu: Fpu, report: Snapshot, cuts: seq<nat>) {
    cuts != [] && (forall k :: 0 <= k < |cuts| ==> cuts[k] <= 32) &&
    forall k :: 0 <= k < |cuts| - 1 ==> cuts[k] <= cuts[k + 1] && |RangeBytes(fpu, report, cuts[k], cuts[k + 1])| <= PAYLOAD_LIMIT
  }

  // The packets are the slots between consecutive cuts; none is empty or over the limit, and only
  // the last may be short.
  ghost predicate CutAt(fpu: Fpu, report: Snapshot, cuts: seq<nat>, packets: seq<seq<byte>>) {
    |cuts| == |packets| + 1 && (forall k :: 0 <= k < |cuts| ==> cuts[k] <= 32) &&
    forall k :: 0 <= k < |packets| ==>
      cuts[k] < cuts[k + 1] && packets[k] == RangeBytes(fpu, report, cuts[k], cuts[k + 1]) &&
      0 < |packets[k]| <= PAYLOAD_LIMIT && (k < |packets| - 1 ==> |packets[k]| >= PAYLOAD_LIMIT - ENCODED_LIMIT + 1)
  }

  lemma CutBefore(fpu: Fpu, report: Snapshot, cursor: nat, packet: seq<byte>, cuts: seq<nat>, packets: seq<seq<byte>>)
    requires CutAt(fpu, report, cuts, packets) && cursor < cuts[0]
    requires packet == RangeBytes(fpu, report, cursor, cuts[0]) && 0 < |packet| <= PAYLOAD_LIMIT
    requires packets != [] ==> |packet| >= PAYLOAD_LIMIT - ENCODED_LIMIT + 1
    ensures CutAt(fpu, report, [cursor] + cuts, [packet] + packets)
  {
    hide RangeBytes;
    var all, longer := [packet] + packets, [cursor] + cuts;
    forall k | 0 <= k < |all|
      ensures longer[k] < longer[k + 1] && all[k] == RangeBytes(fpu, report, longer[k], longer[k + 1])
      ensures 0 < |all[k]| <= PAYLOAD_LIMIT && (k < |all| - 1 ==> |all[k]| >= PAYLOAD_LIMIT - ENCODED_LIMIT + 1)
    {
      if k > 0 { assert all[k] == packets[k - 1] && longer[k] == cuts[k - 1] && longer[k + 1] == cuts[k]; }
    }
  }

  // The cuts of the greedy packing: every packet holds whole slots, and together all that encode.
  lemma {:induction false} PacketsAreCuts(fpu: Fpu, report: Snapshot, cursor: nat) returns (cuts: seq<nat>)
    requires cursor <= 32 && Encodable(fpu, report)
    ensures CutAt(fpu, report, cuts, Packets(fpu, report, cursor)) && cuts[0] == cursor
    ensures RangeBytes(fpu, report, cuts[|cuts| - 1], 32) == []
    decreases 32 - cursor
  {
    hide FillFrom, Encoding, Packets;
    FirstPacket(fpu, report, cursor);
    var f := FillFrom(fpu, report, cursor, []);
    if f.payload == [] {
      cuts := [cursor];
    } else {
      var rest := PacketsAreCuts(fpu, report, f.next);
      FirstPacket(fpu, report, f.next);
      if Packets(fpu, report, f.next) != [] { PacketIsLong(fpu, report, cursor); }
      CutBefore(fpu, report, cursor, f.payload, rest, Packets(fpu, report, f.next));
      cuts := [cursor] + rest;
    }
  }

  // Only the last packet of a report may be short.
  lemma PacketIsLong(fpu: Fpu, report: Snapshot, cursor: nat)
    requires cursor <= 32 && Encodable(fpu, report)
    requires var f := FillFrom(fpu, report, cursor, []); f.Filled? && f.next < 32
    ensures |FillFrom(fpu, report, cursor, []).payload| >= PAYLOAD_LIMIT - ENCODED_LIMIT + 1
  {
    FillHoldsWholeSlots(fpu, report, cursor, []);
    var next := FillFrom(fpu, report, cursor, []).next;
    if report[next].Present? { EncodingSize(fpu, report[next]); }
  }

  // Starting later never needs more packets.
  lemma {:induction false} LaterNeedsNoMore(fpu: Fpu, report: Snapshot, i: nat, j: nat)
    requires i <= j <= 32 && Encodable(fpu, report)
    ensures |Packets(fpu, report, j)| <= |Packets(fpu, report, i)|
    decreases 32 - i, 32 - j
  {
    hide FillFrom, Encoding;
    FirstPacket(fpu, report, i); FirstPacket(fpu, report, j);
    var f, g := FillFrom(fpu, report, i, []), FillFrom(fpu, report, j, []);
    RangeSplits(fpu, report, i, j, 32);
    RangeSplits(fpu, report, j, g.next, 32);
    if f.payload != [] && g.payload != [] {
      if f.next <= j {
        LaterNeedsNoMore(fpu, report, f.next, j);
      } else {
        RangeSplits(fpu, report, i, j, f.next);
        FillReaches(fpu, report, j, [], f.next);
        LaterNeedsNoMore(fpu, report, f.next, g.next);
      }
    }
  }

  // Main result: no way of cutting the slots into packets needs fewer packets.
  lemma {:induction false} GreedyIsOptimal(fpu: Fpu, report: Snapshot, cuts: seq<nat>)
    requires Encodable(fpu, report) && Partition(fpu, report, cuts) && cuts[|cuts| - 1] == 32
    ensures |Packets(fpu, report, cuts[0])| <= |cuts| - 1
    decreases |cuts|
  {
    hide FillFrom, Encoding;
    FirstPacket(fpu, report, cuts[0]);
    if |cuts| == 1 {
    } else {
      var rest := cuts[1..];
      assert Partition(fpu, report, rest) by {
        forall k | 0 <= k < |rest| - 1
          ensures rest[k] <= rest[k + 1] && |RangeBytes(fpu, report, rest[k], rest[k + 1])| <= PAYLOAD_LIMIT
        {
          assert rest[k] == cuts[k + 1] && rest[k + 1] == cuts[k + 2];
        }
      }
      GreedyIsOptimal(fpu, report, rest);
      FillReaches(fpu, report, cuts[0], [], cuts[1]);
      LaterNeedsNoMore(fpu, report, cuts[1], FillFrom(fpu, report, cuts[0], []).next);
    }
  }
}
