// What every operation of the polling component does to the points that other subsystems read, from
// the server's registers to the cache.
module PollDelivery {
  import opened Words
  import opened Channel
  import opened RtuCodec
  import opened WireTypes
  import opened RtuDevice
  import opened RtuMaster
  import opened RtuExchange
  import opened Polling
  import opened PollingComponent

  // ---- one attempt ----

  // A good poll: every position of the polled channel reads as the value polled for it, and every
  // other point reads as before. The same values, with their time, wait to be collected.
  lemma GoodPollIsReadBack(p: Poller, o: Outcome, maxRetries: byte, slot: byte, k: byte)
    requires Coherent(p) && p.channels != [] && Plausible(p.channels[p.index], o) && o.Good?
    ensures var c, after := p.channels[p.index], FinishOf(p, o, maxRetries);
            Coherent(after) && after.channels == p.channels && o.count == c.quantity && c.slot < 32 &&
            PointOf(after, slot, k)
            == (if slot != c.slot then PointOf(p, slot, k) else if k < c.quantity then Some(o.values[k]) else None) &&
            after.cache[c.slot].updatedAt == o.at && after.cache[c.slot].status == Ok
    ensures var c, after := p.channels[p.index], FinishOf(p, o, maxRetries);
            after.completion.Some? &&
            var done := after.completion.value;
            done.channel == c && done.success && done.count == o.count && |done.values| == 2 &&
            done.status == Ok && done.code == 0 && done.at == o.at &&
            (k < done.count ==> done.values[k] == o.values[k])
  {
    hide Find, KindMatches;
    FinishKeepsCoherent(p, o, maxRetries);
    FindAt(p.channels, p.index);
  }

  // A failure that may be tried again changes no point and publishes nothing. The last one makes
  // the points of its channel unreadable, leaves all others alone and publishes the reason.
  lemma BadPollSpoilsItsChannelOnly(p: Poller, o: Outcome, maxRetries: byte, slot: byte, k: byte)
    requires Coherent(p) && p.channels != [] && o.Bad?
    ensures var c, after := p.channels[p.index], FinishOf(p, o, maxRetries);
            Coherent(after) && after.channels == p.channels && c.slot < 32 &&
            after.cache[c.slot].status == o.status && after.cache[c.slot].code == o.code &&
            if p.retries < maxRetries then
              PointOf(after, slot, k) == PointOf(p, slot, k) && after.completion == p.completion
            else
              PointOf(after, slot, k) == (if slot == c.slot then None else PointOf(p, slot, k)) &&
              after.completion.Some? &&
              var done := after.completion.value;
              done.channel == c && !done.success && done.count == 0 &&
              done.status == o.status && done.code == o.code && done.at == o.at
  {
    hide Find, KindMatches;
    FinishKeepsCoherent(p, o, maxRetries);
  }

  // ---- edits ----

  // A channel that is configured anew reads as nothing until it is polled; no other point changes.
  lemma UpsertForgetsItsSlot(p: Poller, c: ChannelConfig, cancelled: bool, slot: byte, k: byte)
    requires Coherent(p)
    ensures var after := UpsertOf(p, c, cancelled);
            Coherent(after) && (ValidChannelConfig(c) ==> Find(after.channels, c.slot) == Some(c)) &&
            (slot != c.slot ==> Find(after.channels, slot) == Find(p.channels, slot)) &&
            PointOf(after, slot, k) == if ValidChannelConfig(c) && slot == c.slot then None else PointOf(p, slot, k)
  {
    hide Find, KindMatches, Upserted;
    UpsertKeepsCoherent(p, c, cancelled);
    UpsertedFinds(p.channels, c, slot);
    UpsertedFinds(p.channels, c, c.slot);
  }

  // A removed channel reads as nothing, and a poll of it that nobody collected is dropped.
  lemma RemoveForgetsItsSlot(p: Poller, gone: byte, cancelled: bool, slot: byte, k: byte)
    requires Coherent(p)
    ensures var after := RemoveOf(p, gone, cancelled);
            Coherent(after) && Find(after.channels, slot) == (if slot == gone then None else Find(p.channels, slot)) &&
            PointOf(after, slot, k) == (if slot == gone then None else PointOf(p, slot, k)) &&
            (after.completion.Some? && Find(p.channels, gone).Some? ==> after.completion.value.channel.slot != gone)
  {
    hide Find, KindMatches, Removed;
    RemoveKeepsCoherent(p, gone, cancelled);
    RemovedFinds(p.channels, gone, slot);
  }

  // Whose turn it is after a removal. Where the removed channel comes before the one whose turn it was
  // in the list, that one loses its turn to the next.
  lemma TurnAfterRemoval(p: Poller, gone: byte, cancelled: bool)
    requires Coherent(p) && |p.channels| >= 2 && Find(p.channels, gone).Some?
    ensures var after, k := RemoveOf(p, gone, cancelled), Position(p.channels, gone);
            Coherent(after) && after.channels != [] && k < |p.channels| && after.retries == 0 &&
            TurnAfter(after, 0)
            == (if p.index < k then p.channels[p.index]
                else if p.index + 1 < |p.channels| then p.channels[p.index + 1]
                else p.channels[if k == 0 then 1 else 0])
  {
    hide Find, Position;
    RemoveKeepsCoherent(p, gone, cancelled);
    var after := RemoveOf(p, gone, cancelled);
    ThisTurn(after);
  }

  // Configuring a channel passes no turn on.
  lemma UpsertKeepsTurn(p: Poller, c: ChannelConfig, cancelled: bool)
    requires Coherent(p) && p.channels != [] && ValidChannelConfig(c)
    ensures var after := UpsertOf(p, c, cancelled);
            Coherent(after) && after.channels != [] &&
            after.retries == (if cancelled then 0 else p.retries) &&
            TurnAfter(after, 0) == if TurnAfter(p, 0).slot == c.slot then c else TurnAfter(p, 0)
  {
    hide Find, Position;
    UpsertKeepsCoherent(p, c, cancelled);
    ThisTurn(p);
    ThisTurn(UpsertOf(p, c, cancelled));
    PositionIsUnique(p.channels, c.slot, p.index);
  }

  lemma PositionIsUnique(channels: seq<ChannelConfig>, slot: byte, k: nat)
    requires Distinct(channels) && k < |channels|
    ensures channels[k].slot == slot <==> Position(channels, slot) == k
  {
    hide Find;
    var at := Position(channels, slot);
  }

  lemma RenameKeepsPoints(p: Poller, renamed: byte, name: seq<byte>, slot: byte, k: byte)
    requires Coherent(p)
    ensures Coherent(RenameOf(p, renamed, name)) && PointOf(RenameOf(p, renamed, name), slot, k) == PointOf(p, slot, k)
  {
    hide Find, KindMatches, Renamed;
    RenameKeepsCoherent(p, renamed, name);
    RenamedFinds(p.channels, renamed, name, slot);
  }

  // ---- from the server's registers to the points ----

  // The points of a channel are what the server holds.
  ghost predicate Tracks(fpu: Fpu, p: Poller, c: ChannelConfig, d: Device)
    requires Coherent(p) && ValidDevice(d) && ValidChannelConfig(c) && c.address + ReadQuantity(c) <= 0x10000
  {
    forall k: byte :: k < c.quantity ==> PointOf(p, c.slot, k) == Some(DeviceValue(fpu, c, d, k))
  }

  // Where the server's answer ends.
  lemma ReplyExtent(c: ChannelConfig, d: Device, capacity: nat)
    requires ValidDevice(d) && d.id == c.slaveId && ReadRequest(c, capacity).Frame?
    ensures var answer := Execute(d, ReadRequest(c, capacity).bytes).1;
            answer.Some? && ReadExtent(answer.value) == Closed(|answer.value|)
  {
    assert DataBytes(c) <= 16 && FunctionCode(c.dataType) < 0x80;
    hide WithCrc, Execute, ReadData, ReadRequest, ReadExtent, FunctionCode, DataBytes;
    ReadIsExecuted(c, d, capacity);
    var body := [d.id, FunctionCode(c.dataType), |ReadData(c, d)|] + ReadData(c, d);
    WithCrcOk(body);
    FirstThree(WithCrc(body), body);
    WholeReplyCloses(WithCrc(body));
  }

  lemma WholeReplyCloses(answer: seq<byte>)
    requires |answer| >= 3 && answer[1] < 0x80 && |answer| == answer[2] as int + 5 <= RESPONSE_CAPACITY
    ensures ReadExtent(answer) == Closed(|answer|)
  {
  }

  // The pieces of a server's answer are decided as its values.
  lemma AnswerDecides(fpu: Fpu, c: ChannelConfig, d: Device, capacity: nat, chunks: seq<seq<byte>>)
    requires ValidDevice(d) && d.id == c.slaveId && ReadRequest(c, capacity).Frame?
    requires Execute(d, ReadRequest(c, capacity).bytes).1 == Some(Concat(chunks))
    ensures ValidChannelConfig(c) && c.address + ReadQuantity(c) <= 0x10000
    ensures PollChunks(fpu, c, [], chunks).Decided? && PollChunks(fpu, c, [], chunks).outcome == Values(DeviceReading(fpu, c, d))
    ensures ReadingOf(c, DeviceReading(fpu, c, d))
  {
    ReadsFit(c, capacity);
    hide Execute, ReadRequest, PollChunks, ReadResponse, DeviceReading, ReadExtent, ValidDevice;
    var answer := Concat(chunks);
    ReadDeliversDeviceValues(fpu, c, d, capacity);
    ReplyExtent(c, d, capacity);
    ReceivedIsConcat([], chunks);
    assert [] + answer == answer && answer[..|answer|] == answer;
    assert ReadExtent([]) == Open by { NothingIsOpen(); }
    SplitDoesNotMatter(fpu, c, [], chunks, answer, |answer|);
    AcceptedResponseIsReading(fpu, c, answer);
  }

  lemma NothingIsOpen()
    ensures ReadExtent([]) == Open
  {
  }

  // A good poll with the server's values puts the points on them.
  lemma GoodReadingTracks(fpu: Fpu, p: Poller, c: ChannelConfig, d: Device, maxRetries: byte, at: u32)
    requires Coherent(p) && p.channels != [] && c == p.channels[p.index]
    requires ValidDevice(d) && ValidChannelConfig(c) && c.address + ReadQuantity(c) <= 0x10000
    requires ReadingOf(c, DeviceReading(fpu, c, d))
    ensures var o := OutcomeOf(Values(DeviceReading(fpu, c, d)), at);
            o.Good? && Plausible(c, o) && Coherent(FinishOf(p, o, maxRetries)) && Tracks(fpu, FinishOf(p, o, maxRetries), c, d)
  {
    hide Coherent, FinishOf, PointOf, DeviceValue, KindMatches;
    var vs := DeviceReading(fpu, c, d);
    var o := OutcomeOf(Values(vs), at);
    assert o.values[..o.count] == vs;
    GoodPollIsReadBack(p, o, maxRetries, c.slot, 0);
    forall k: byte
      ensures PointOf(FinishOf(p, o, maxRetries), c.slot, k) == if k < c.quantity then Some(vs[k]) else None
    {
      GoodPollIsReadBack(p, o, maxRetries, c.slot, k);
    }
  }

  // Main result, from registers to points: a channel is polled, its server answers, and the answer
  // arrives in any pieces before the timeout. The poll with the last byte decides; its outcome
  // makes every point of the channel read as the server's value there, in the bank, width and
  // byte order that the channel's type names, and changes no other point.
  lemma PollReachesPoints(fpu: Fpu, p: Poller, d: Device, capacity: nat, chunks: seq<seq<byte>>, maxRetries: byte, at: u32,
                          slot: byte, k: byte)
    requires Coherent(p) && p.channels != [] && ValidDevice(d) && d.id == p.channels[p.index].slaveId
    requires ReadRequest(p.channels[p.index], capacity).Frame?
    requires Execute(d, ReadRequest(p.channels[p.index], capacity).bytes).1 == Some(Concat(chunks))
    ensures var c, r := p.channels[p.index], PollChunks(fpu, p.channels[p.index], [], chunks);
            c.address + ReadQuantity(c) <= 0x10000 && r.Decided? && r.outcome == Values(DeviceReading(fpu, c, d)) &&
            var o := OutcomeOf(r.outcome, at);
            Plausible(c, o) && Coherent(FinishOf(p, o, maxRetries)) &&
            Tracks(fpu, FinishOf(p, o, maxRetries), c, d) &&
            (slot != c.slot ==> PointOf(FinishOf(p, o, maxRetries), slot, k) == PointOf(p, slot, k))
  {
    CoherentFacts(p);
    hide Execute, Coherent, FinishOf, PointOf, ReadRequest, PollChunks, Tracks, DeviceReading, Plausible, ReadingOf;
    var c := p.channels[p.index];
    AnswerDecides(fpu, c, d, capacity, chunks);
    GoodReadingTracks(fpu, p, c, d, maxRetries, at);
    GoodPollIsReadBack(p, OutcomeOf(Values(DeviceReading(fpu, c, d)), at), maxRetries, slot, k);
  }

  lemma ReadsFit(c: ChannelConfig, capacity: nat)
    requires ReadRequest(c, capacity).Frame?
    ensures ValidChannelConfig(c) && c.address + ReadQuantity(c) <= 0x10000
  {
  }

  lemma CoherentFacts(p: Poller)
    requires Coherent(p) && p.channels != []
    ensures p.index < |p.channels|
  {
  }

  // A confirmed write keeps the points on the server's values, except where a float32 register
  // rounds the value: then the cache holds the value as it was asked for, until the next poll.
  lemma WriteKeepsTracking(fpu: Fpu, p: Poller, c: ChannelConfig, index: byte, v: Scalar, d: Device, now: u32)
    requires Coherent(p) && ValidDevice(d) && d.id == c.slaveId && WriteRequest(fpu, c, index, v, 17).Frame?
    requires c.address + ReadQuantity(c) <= 0x10000
    requires Fits(p.channels, WriteJob(c, index, v)) && Tracks(fpu, p, c, d)
    ensures var after := WriteThroughOf(p, WriteJob(c, index, v), now);
            Coherent(after) && ValidDevice(Written(fpu, c, index, v, d)) &&
            (Tracks(fpu, after, c, Written(fpu, c, index, v, d)) <==> Stored(fpu, c, v) == v)
  {
    hide Coherent, WriteThroughOf, PointOf, WriteRequest, DeviceValue, Fits, Stored, Written;
    var w := WriteJob(c, index, v);
    WriteThroughKeepsCoherent(p, w, now);
    var after, d' := WriteThroughOf(p, w, now), Written(fpu, c, index, v, d);
    forall k: byte | k < c.quantity
      ensures Coherent(after) && ValidDevice(d')
      ensures PointOf(after, c.slot, k) == Some(if k == index then v else DeviceValue(fpu, c, d, k))
      ensures DeviceValue(fpu, c, d', k) == if k == index then Stored(fpu, c, v) else DeviceValue(fpu, c, d, k)
    {
      WriteIsReadBack(p, w, now, c.slot, k);
      WrittenValue(fpu, c, index, v, d, k);
      WriteIsExecuted(fpu, c, index, v, d);
    }
    assert index < c.quantity;
    assert PointOf(after, c.slot, index) == Some(v);
  }
}
