// The polling component: one fieldbus transaction at a time, shared between pass-through requests,
// queued writes and the polling of the configured channels.
module PollingComponent {
  import opened Words
  import opened Channel
  import opened RtuCodec
  import opened RtuMaster
  import opened Polling
  import Downlink

  datatype Mode = Disabled | Slave | Master_
  datatype RawOrigin = PassThrough | Rule
  datatype RawJob = RawJob(origin: RawOrigin, payload: seq<byte>)
  datatype RawCompletion = RawCompletion(origin: RawOrigin, success: bool, payload: seq<byte>, at: u32)

  // What the collector of unsolicited frames reports while no transaction runs.
  datatype Passive = Quiet | Collecting | FrameReady(frame: seq<byte>) | Overflow

  const TWO_WAY: byte := 0x11

  // The outcome of a finished read, as the poll attempt sees it.
  function OutcomeOf(read: ReadOutcome, at: u32): Outcome
    requires read.Values? ==> |read.values| <= 2
  {
    match read
    case Values(vs) => Good(|vs|, vs + NO_VALUES[|vs|..], at)
    case Fault(status) => Bad(status, 0, at)
    case Exception(code) => Bad(ExceptionResponse, code, at)
  }

  // What one poll of a read in flight does to the poller: nothing while the response is
  // incomplete, otherwise its outcome ends the attempt.
  ghost predicate ReadAdvances(before: Poller, after: Poller, poll: ReadPoll, maxRetries: byte, at: u32)
    requires Coherent(before) && before.channels != []
  {
    match poll
    case Waiting(_) => after == before
    case Finished(read, _) =>
      (read.Values? ==> |read.values| <= 2) &&
      var o := OutcomeOf(read, at);
      Plausible(before.channels[before.index], o) && after == FinishOf(before, o, maxRetries)
  }

  // What the framer reports of a channel is a reading of that channel, or a failure with a reason.
  lemma PollReportsReading(fpu: Fpu, c: ChannelConfig, held: seq<byte>, queue: seq<byte>, timedOut: bool)
    requires ValidChannelConfig(c)
    ensures match PollOnce(fpu, c, held, queue, timedOut)
            case Waiting(_) => true
            case Finished(Values(vs), _) => ReadingOf(c, vs)
            case Finished(Fault(status), _) => status != Ok
            case Finished(Exception(_), _) => true
  {
    hide ReadExtent, CrcOk, ValueAt, FunctionCode, DataBytes;
    var s := held + queue;
    match ReadExtent(s)
    case TooLong =>
    case Closed(length) =>
      var frame := s[..Min(length, |s|)];
      if ReadResponse(fpu, c, frame).Values? { AcceptedResponseIsReading(fpu, c, frame); }
    case Open =>
      if ReadResponse(fpu, c, s).Values? { AcceptedResponseIsReading(fpu, c, s); }
  }

  // The decoder's report, read as the outcome of the attempt.
  lemma ReportMeansOutcome(read: ReadOutcome, after: seq<Scalar>, status: RtuStatus, count: byte, code: byte, at: u32)
    requires |after| == 2 && Reports(read, NO_VALUES, after, status, count, code) && (read.Fault? ==> read.status != Ok)
    ensures read.Values? ==> |read.values| <= 2
    ensures OutcomeOf(read, at) == if status == Ok then Good(count, after, at) else Bad(status, code, at)
  {
  }

  lemma RenamedReading(a: ChannelConfig, b: ChannelConfig, values: seq<Scalar>)
    requires SameButName(a, b) && ReadingOf(a, values)
    ensures ReadingOf(b, values)
  {
  }

  class ModbusComponent {
    const rtu: Master
    const cache: array<Cache>
    var mode: Mode
    var active: bool
    var settings: Downlink.MasterSettings
    var rs485: Downlink.SerialSettings
    var serialBaudRate: u32
    var serialTimeoutMs: u32
    var channels: seq<ChannelConfig>
    var pollChannelIndex: nat
    var pollRetryCount: byte
    var nextPollAtMs: u32
    var completedPoll: Option<Completion>
    var pendingWrite: Option<WriteJob>
    var activeWrite: WriteJob
    var writeInFlight: bool
    var pendingRaw: Option<RawJob>
    var activeRaw: RawJob
    var rawInFlight: bool
    var rawCompletion: Option<RawCompletion>
    var passiveFrame: Option<seq<byte>>
    var successfulWrites: u32
    var failedWrites: u32

    ghost function View(): Poller
      reads this, cache
    {
      Poller(channels, cache[..], pollChannelIndex, pollRetryCount, completedPoll)
    }

    // The transaction in flight belongs to what is configured and queued.
    ghost predicate InFlight()
      reads this, rtu
    {
      (rtu.transactionActive && rtu.kind == Read ==>
         pollChannelIndex < |channels| && SameButName(rtu.activeChannel, channels[pollChannelIndex])) &&
      (pendingWrite.Some? ==> Fits(channels, pendingWrite.value) && WritableType(pendingWrite.value.channel.dataType)) &&
      (writeInFlight ==>
         rtu.transactionActive && rtu.kind == Write && Fits(channels, activeWrite) &&
         rtu.activeChannel == activeWrite.channel && rtu.activeValueIndex == activeWrite.registerIndex) &&
      (rawInFlight ==> rtu.transactionActive && rtu.kind == Raw)
    }

    ghost predicate Valid()
      reads this, cache, rtu, rtu.response
    {
      rtu.Valid() && Coherent(View()) && InFlight() && pollRetryCount <= settings.maxRetryTimes &&
      Downlink.ValidMaster(settings) && Downlink.BoardSupports(rs485)
    }

    constructor (fpu: Fpu)
      ensures Valid() && fresh(cache) && fresh(rtu) && fresh(rtu.response) && rtu.fpu == fpu
      ensures View() == Poller([], seq(32, _ => EMPTY_CACHE), 0, 0, None) && mode == Disabled && !active
    {
      rtu := new Master(fpu);
      cache := new Cache[32](_ => EMPTY_CACHE);
      mode, active, settings := Disabled, false, Downlink.MasterSettings(50, 500, 3, 0x00, 2);
      rs485, serialBaudRate, serialTimeoutMs := Downlink.SerialSettings(9600, 8, 1, 0), 9600, 500;
      channels, pollChannelIndex, pollRetryCount, nextPollAtMs, completedPoll := [], 0, 0, 0, None;
      var nothing := WriteJob(ChannelConfig(0, 1, 0, 0, 1, false, []), 0, Unsigned(0));
      pendingWrite, activeWrite, writeInFlight := None, nothing, false;
      pendingRaw, activeRaw, rawInFlight, rawCompletion := None, RawJob(PassThrough, []), false, None;
      passiveFrame, successfulWrites, failedWrites := None, 0, 0;
      new;
      assert cache[..] == seq(32, _ => EMPTY_CACHE);
    }

    // ---- configuration ----

    method SetMode(mode: Mode)
      requires Valid()
      modifies this`mode, this`active
      ensures Valid() && this.mode == mode && !active
    {
      this.mode, active := mode, false;
    }

    method Begin(nowMs: u32) returns (ok: bool)
      requires Valid()
      modifies this`active, this`nextPollAtMs, rtu`started, rtu`baudRate, rtu`timeoutMs
      ensures Valid() && ok == (mode == Master_ ==> serialBaudRate != 0 && serialTimeoutMs != 0)
      ensures active == (old(active) || (ok && mode != Disabled))
      ensures nextPollAtMs == if ok && mode == Master_ then nowMs else old(nextPollAtMs)
      ensures ok && mode == Master_ ==> rtu.started && rtu.baudRate == serialBaudRate && rtu.timeoutMs == serialTimeoutMs
    {
      match mode
      case Master_ =>
        var begun := rtu.Begin(serialBaudRate, serialTimeoutMs);
        if !begun { return false; }
        active, nextPollAtMs := true, nowMs;
        return true;
      case Slave =>
        active := true;
        return true;
      case Disabled =>
        return true;
    }

    // Nothing is queued, in flight or waiting on the bus; only a poll result may still wait.
    predicate Forgotten()
      reads this
    {
      pendingWrite.None? && !writeInFlight && pendingRaw.None? && !rawInFlight && rawCompletion.None? && passiveFrame.None?
    }

    // What waits on the bus, and what is configured.
    twostate predicate NothingForgotten()
      reads this
    {
      pendingWrite == old(pendingWrite) && writeInFlight == old(writeInFlight) && pendingRaw == old(pendingRaw) &&
      rawInFlight == old(rawInFlight) && rawCompletion == old(rawCompletion) && passiveFrame == old(passiveFrame)
    }

    // What an edit of the channel list leaves alone.
    twostate predicate ServiceKept()
      reads this
    {
      mode == old(mode) && active == old(active) && settings == old(settings) && rs485 == old(rs485) &&
      serialBaudRate == old(serialBaudRate) && serialTimeoutMs == old(serialTimeoutMs) && nextPollAtMs == old(nextPollAtMs) &&
      successfulWrites == old(successfulWrites) && failedWrites == old(failedWrites)
    }

    // Queued and running writes and pass-through requests are forgotten.
    method ClearPendingWrite()
      modifies this`pendingWrite, this`activeWrite, this`writeInFlight, this`pendingRaw, this`activeRaw, this`rawInFlight,
               this`rawCompletion, this`passiveFrame
      ensures Forgotten()
    {
      pendingWrite, activeWrite, writeInFlight := None, WriteJob(ChannelConfig(0, 1, 0, 0, 1, false, []), 0, Unsigned(0)), false;
      pendingRaw, activeRaw, rawInFlight := None, RawJob(PassThrough, []), false;
      rawCompletion, passiveFrame := None, None;
    }

    method SetRtuSerialConfig(baudRate: u32, timeoutMs: u32)
      requires Valid()
      modifies this`serialBaudRate, this`serialTimeoutMs
      ensures Valid() && serialBaudRate == baudRate && serialTimeoutMs == timeoutMs
    {
      serialBaudRate, serialTimeoutMs := baudRate, timeoutMs;
    }

    // Closes and opens the bus, with nothing in flight.
    method RestartBus(baudRate: u32, timeoutMs: u32)
      requires rtu.Valid() && baudRate != 0 && timeoutMs != 0
      modifies rtu
      ensures rtu.Valid() && rtu.response == old(rtu.response) && !rtu.transactionActive && rtu.started
      ensures rtu.baudRate == baudRate && rtu.timeoutMs == timeoutMs
    {
      var restarted := rtu.Reconfigure(baudRate, timeoutMs);
      if !restarted { assert false; }
    }

    // Polling begins anew, with nothing queued.
    method StartOver(nowMs: u32)
      requires Valid() || (Coherent(View()) && rtu.Valid() && !rtu.transactionActive &&
                           Downlink.ValidMaster(settings) && Downlink.BoardSupports(rs485))
      modifies this`pollRetryCount, this`nextPollAtMs, this`pendingWrite, this`activeWrite, this`writeInFlight,
               this`pendingRaw, this`activeRaw, this`rawInFlight, this`rawCompletion, this`passiveFrame
      ensures Valid() && View() == old(View()).(retries := 0) && Forgotten() && nextPollAtMs == nowMs
    {
      hide Coherent, Fits, Downlink.BoardSupports, Downlink.ValidMaster, ReadExtent, WriteExtent;
      CoherentWithoutRetries(View());
      pollRetryCount := 0;
      ClearPendingWrite();
      nextPollAtMs := nowMs;
    }

    // Both kinds of settings restart the bus while it is polled.
    method Restart(baudRate: u32, timeoutMs: u32, nowMs: u32)
      requires Valid() && baudRate != 0 && timeoutMs != 0
      modifies this`serialBaudRate, this`serialTimeoutMs, this`pollRetryCount, this`nextPollAtMs, this`pendingWrite,
               this`activeWrite, this`writeInFlight, this`pendingRaw, this`activeRaw, this`rawInFlight, this`rawCompletion,
               this`passiveFrame, rtu
      ensures Valid() && View() == old(View()).(retries := 0) && Forgotten() && nextPollAtMs == nowMs
      ensures mode == Master_ && active ==>
                !rtu.transactionActive && rtu.started && rtu.baudRate == baudRate && rtu.timeoutMs == timeoutMs
      ensures serialBaudRate == baudRate && serialTimeoutMs == timeoutMs
    {
      hide Coherent, Fits, Downlink.BoardSupports, Downlink.ValidMaster, ReadExtent, WriteExtent;
      if mode == Master_ && active { RestartBus(baudRate, timeoutMs); }
      serialBaudRate, serialTimeoutMs := baudRate, timeoutMs;
      StartOver(nowMs);
    }

    method ApplyRs485SerialSettings(updated: Downlink.SerialSettings, nowMs: u32) returns (ok: bool)
      requires Valid()
      modifies this, rtu
      ensures mode == old(mode) && active == old(active) && successfulWrites == old(successfulWrites) && failedWrites == old(failedWrites)
      ensures Valid() && ok == Downlink.BoardSupports(updated) && settings == old(settings)
      ensures rs485 == if ok then updated else old(rs485)
      ensures if ok then View() == old(View()).(retries := 0) && Forgotten() && nextPollAtMs == nowMs
              else View() == old(View()) && NothingForgotten()
      ensures ok && mode == Master_ && active ==>
                !rtu.transactionActive && rtu.started && rtu.baudRate == updated.baudRate &&
                rtu.timeoutMs == settings.maxResponseTimeMs
    {
      if !Downlink.BoardSupports(updated) { return false; }
      Restart(updated.baudRate, settings.maxResponseTimeMs, nowMs);
      rs485 := updated;
      return true;
    }

    method ApplyModbusMasterSettings(updated: Downlink.MasterSettings, nowMs: u32) returns (ok: bool)
      requires Valid()
      modifies this, rtu
      ensures mode == old(mode) && active == old(active) && successfulWrites == old(successfulWrites) && failedWrites == old(failedWrites)
      ensures Valid() && ok == Downlink.ValidMaster(updated) && settings == if ok then updated else old(settings)
      ensures rs485 == old(rs485)
      ensures if ok then View() == old(View()).(retries := 0) && Forgotten() && nextPollAtMs == nowMs
              else View() == old(View()) && NothingForgotten()
      ensures ok && mode == Master_ && active ==>
                !rtu.transactionActive && rtu.started && rtu.baudRate == rs485.baudRate &&
                rtu.timeoutMs == updated.maxResponseTimeMs
    {
      if !Downlink.ValidMaster(updated) { return false; }
      Restart(rs485.baudRate, updated.maxResponseTimeMs, nowMs);
      settings := updated;
      return true;
    }

    // An edit of the channel list first cancels whatever is in flight or queued.
    method CancelForEdit() returns (cancelled: bool)
      requires Valid()
      modifies this, rtu
      ensures Valid() && cancelled == old(rtu.transactionActive) && !rtu.transactionActive && Forgotten()
      ensures View() == old(View()).(retries := if cancelled then 0 else old(pollRetryCount))
      ensures ServiceKept()
    {
      hide Coherent, Fits, Downlink.BoardSupports, Downlink.ValidMaster, ReadExtent, WriteExtent;
      CoherentWithoutRetries(View());
      cancelled := rtu.transactionActive;
      if cancelled {
        rtu.CancelTransaction();
        pollRetryCount := 0;
      }
      ClearPendingWrite();
    }

    // The search through the channel list; the list's length if the slot is not there.
    method SearchSlot(slot: byte) returns (k: nat)
      ensures k == Position(channels, slot)
    {
      k := 0;
      while k < |channels| && channels[k].slot != slot
        invariant k <= |channels| && forall i :: 0 <= i < k ==> channels[i].slot != slot
      {
        k := k + 1;
      }
    }

    // The cleared cache entry and the replacement loop.
    method PutChannel(config: ChannelConfig)
      requires Coherent(View()) && ValidChannelConfig(config)
      modifies this`channels, cache
      ensures View() == UpsertOf(old(View()), config, false)
    {
      hide Coherent, Find;
      CoherentParts(View());
      cache[config.slot] := EMPTY_CACHE;
      var i := SearchSlot(config.slot);
      channels := if i < |channels| then channels[i := config] else channels + [config];
    }

    method UpsertChannel(config: ChannelConfig) returns (ok: bool)
      requires Valid()
      modifies this, cache, rtu
      ensures Valid() && ok == ValidChannelConfig(config) && ServiceKept()
      ensures View() == UpsertOf(old(View()), config, old(rtu.transactionActive))
      ensures if ok then !rtu.transactionActive && Forgotten() else NothingForgotten()
    {
      hide Coherent, Find, Fits, Upserted, Downlink.BoardSupports, Downlink.ValidMaster, ReadExtent, WriteExtent;
      if !ValidChannelConfig(config) { return false; }
      UpsertKeepsCoherent(View(), config, rtu.transactionActive);
      CoherentParts(View());
      var cancelled := CancelForEdit();
      PutChannel(config);
      return true;
    }

    method Erase(i: nat, ghost cancelled: bool)
      requires cache.Length == 32 && i < |channels| && channels[i].slot < 32 && i == Position(channels, channels[i].slot)
      modifies this`channels, this`completedPoll, this`pollChannelIndex, this`pollRetryCount, cache
      ensures View() == RemoveOf(old(View()), old(channels[i]).slot, cancelled)
    {
      hide Find;
      var slot := channels[i].slot;
      channels := channels[..i] + channels[i + 1..];
      cache[slot] := EMPTY_CACHE;
      if completedPoll.Some? && completedPoll.value.channel.slot == slot { completedPoll := None; }
      if pollChannelIndex >= |channels| { pollChannelIndex := 0; }
      pollRetryCount := 0;
    }

    // The removal loop.
    method EraseSlot(slot: byte, ghost cancelled: bool) returns (ok: bool)
      requires Coherent(View())
      modifies this`channels, this`completedPoll, this`pollChannelIndex, this`pollRetryCount, cache
      ensures ok == Find(old(channels), slot).Some? && (ok ==> slot < 32)
      ensures View() == if ok then RemoveOf(old(View()), slot, cancelled) else old(View())
    {
      hide Find, RemoveOf, Removed, Coherent;
      RemoveKeepsCoherent(View(), slot, cancelled);
      CoherentParts(View());
      var i := SearchSlot(slot);
      hide Position;
      if i == |channels| { return false; }
      Erase(i, cancelled);
      return true;
    }

    method RemoveChannel(slot: byte) returns (ok: bool)
      requires Valid()
      modifies this, cache, rtu
      ensures Valid() && ok == Find(old(channels), slot).Some? && ServiceKept()
      ensures ok ==> slot < 32
      ensures View() == RemoveOf(old(View()), slot, old(rtu.transactionActive))
      ensures !rtu.transactionActive && Forgotten()
    {
      hide Coherent, Find, Fits, RemoveOf, Removed, WritableType, SameButName, Downlink.BoardSupports, Downlink.ValidMaster;
      ghost var before := View();
      CoherentParts(before);
      RemoveKeepsCoherent(before, slot, rtu.transactionActive);
      RemoveAfterCancel(before, slot, rtu.transactionActive);
      var cancelled := CancelForEdit();
      ok := EraseSlot(slot, cancelled);
    }

    method SetChannelName(slot: byte, name: seq<byte>) returns (ok: bool)
      requires Valid()
      modifies this`channels
      ensures Valid() && ok == (Find(old(channels), slot).Some? && |name| <= MAX_NAME_LENGTH)
      ensures View() == RenameOf(old(View()), slot, name)
    {
      hide Coherent;
      RenameKeepsCoherent(View(), slot, name);
      CoherentParts(View());
      RenameKeepsFlight(channels, slot, name);
      var i := SearchSlot(slot);
      if i == |channels| || |name| > MAX_NAME_LENGTH { return false; }
      channels := channels[i := channels[i].(name := name)];
      return true;
    }

    // ---- points ----

    predicate Serving()
      reads this
    {
      mode == Master_ && active && settings.passThroughMode != TWO_WAY
    }

    method ChannelForSlot(slot: byte) returns (found: Option<ChannelConfig>)
      ensures found == Find(channels, slot)
    {
      var i := SearchSlot(slot);
      return if i < |channels| then Some(channels[i]) else None;
    }

    method ReadPoint(slot: byte, registerIndex: byte) returns (value: Option<Scalar>)
      requires Valid() && slot < 32
      ensures value == if Serving() then PointOf(View(), slot, registerIndex) else None
    {
      hide Find;
      if !Serving() { return None; }
      var channel := ChannelForSlot(slot);
      if channel.None? || registerIndex >= channel.value.quantity { return None; }
      assert Backed(channels, slot, cache[..][slot]);
      var cached := cache[slot];
      if !cached.valid || registerIndex >= cached.count { return None; }
      return Some(cached.values[registerIndex]);
    }

    // Accepts a write only if its request can be built; nothing is sent yet.
    method WritePoint(slot: byte, registerIndex: byte, value: Scalar) returns (ok: bool)
      requires Valid()
      modifies this`pendingWrite
      ensures Valid()
      ensures ok == (Serving() && old(pendingWrite).None? && !writeInFlight &&
                     var c := Find(channels, slot);
                     c.Some? && KindMatches(c.value, value) && WriteRequest(rtu.fpu, c.value, registerIndex, value, 17).Frame?)
      ensures ok ==> pendingWrite == Some(WriteJob(Find(channels, slot).value, registerIndex, value))
      ensures !ok ==> pendingWrite == old(pendingWrite)
    {
      hide Coherent, Find, WriteRequest;
      if !Serving() || pendingWrite.Some? || writeInFlight { return false; }
      var channel := ChannelForSlot(slot);
      if channel.None? || registerIndex >= channel.value.quantity || !WritableType(channel.value.dataType) { return false; }
      if !KindMatches(channel.value, value) { return false; }
      var request := new byte[17](_ => 0);
      var status, written := BuildWriteRequest(rtu.fpu, channel.value, registerIndex, value, request);
      if status != Ok { return false; }
      pendingWrite := Some(WriteJob(channel.value, registerIndex, value));
      return true;
    }

    // ---- pass-through requests and results ----

    method QueueRaw(payload: seq<byte>, origin: RawOrigin) returns (ok: bool)
      requires Valid()
      modifies this`pendingRaw
      ensures Valid() && ok == (mode == Master_ && active && 0 < |payload| <= 242 && old(pendingRaw).None? && !rawInFlight)
      ensures pendingRaw == if ok then Some(RawJob(origin, payload)) else old(pendingRaw)
    {
      if mode != Master_ || !active || |payload| == 0 || |payload| > 242 || pendingRaw.Some? || rawInFlight { return false; }
      pendingRaw := Some(RawJob(origin, payload));
      return true;
    }

    method QueueRawRequest(payload: seq<byte>) returns (ok: bool)
      requires Valid()
      modifies this`pendingRaw
      ensures Valid()
      ensures ok == (settings.passThroughMode != 0x00 && mode == Master_ && active && 0 < |payload| <= 242 &&
                     old(pendingRaw).None? && !rawInFlight)
      ensures pendingRaw == if ok then Some(RawJob(PassThrough, payload)) else old(pendingRaw)
    {
      if settings.passThroughMode == 0x00 { return false; }
      ok := QueueRaw(payload, PassThrough);
    }

    method TakeCompletedPoll() returns (completion: Option<Completion>)
      requires Valid()
      modifies this`completedPoll
      ensures Valid() && completion == old(completedPoll) && View() == old(View()).(completion := None)
      ensures completion.Some? ==> Genuine(completion.value)
    {
      completion := completedPoll;
      completedPoll := None;
    }

    // Bytes arrive on the bus between loop steps.
    method Receive(bytes: seq<byte>)
      requires Valid()
      modifies rtu`line
      ensures Valid() && rtu.line == old(rtu.line) + bytes
    {
      rtu.line := rtu.line + bytes;
    }

    // ---- the loop ----

    // The fields that only finishing a transaction or starting one may change.
    twostate predicate WritesKept()
      reads this
    {
      pendingWrite == old(pendingWrite) && writeInFlight == old(writeInFlight) &&
      successfulWrites == old(successfulWrites) && failedWrites == old(failedWrites)
    }

    twostate predicate RawKept()
      reads this
    {
      pendingRaw == old(pendingRaw) && rawInFlight == old(rawInFlight) && rawCompletion == old(rawCompletion)
    }

    // The transaction goes on with these bytes received.
    twostate predicate GoesOn(held: seq<byte>)
      reads this, rtu, rtu.response
    {
      rtu.StillRunning(held) && rtu.line == [] && nextPollAtMs == old(nextPollAtMs)
    }

    // Nothing happens, except that the time of the next poll may change.
    twostate predicate Untouched(nextAt: u32)
      reads this, cache, rtu
    {
      View() == old(View()) && WritesKept() && RawKept() && nextPollAtMs == nextAt &&
      rtu.transactionActive == old(rtu.transactionActive) && rtu.kind == old(rtu.kind) && rtu.line == old(rtu.line)
    }

    // One poll of a pass-through request in flight.
    twostate predicate RawPolled(idle: bool, nowMs: u32)
      reads this, cache, rtu, rtu.response
    {
      old(rtu.responseLength) <= old(rtu.response.Length) &&
      View() == old(View()) && WritesKept() && pendingRaw == old(pendingRaw) &&
      match old(PollRawOnce(rtu.Held(), rtu.line, idle, Wrap32(nowMs - rtu.startedAtMs) >= rtu.timeoutMs, RESPONSE_CAPACITY))
      case RawWaiting(held) => GoesOn(held) && RawKept()
      case RawFinished(status, bytes, _) =>
        !rtu.transactionActive && !rawInFlight && nextPollAtMs == nowMs &&
        rawCompletion == Some(RawCompletion(old(activeRaw).origin, status == Ok, if status == Ok then bytes else [], nowMs))
    }

    // One poll of a write in flight.
    twostate predicate WritePolled(nowMs: u32)
      requires old(Valid())
      reads this, cache, rtu, rtu.response
    {
      pendingWrite == old(pendingWrite) && RawKept() &&
      match old(PollWriteOnce(rtu.activeChannel, rtu.activeValueIndex, rtu.activeRequest, rtu.Held(), rtu.line,
                              Wrap32(nowMs - rtu.startedAtMs) >= rtu.timeoutMs))
      case WriteWaiting(held) => View() == old(View()) && GoesOn(held) && WritesKept()
      case WriteFinished(status, _, _) =>
        !rtu.transactionActive && !writeInFlight && nextPollAtMs == nowMs &&
        View() == (if old(writeInFlight) && status == Ok then WriteThroughOf(old(View()), old(activeWrite), nowMs) else old(View())) &&
        successfulWrites == Wrap32(old(successfulWrites) + (if old(writeInFlight) && status == Ok then 1 else 0)) &&
        failedWrites == Wrap32(old(failedWrites) + (if old(writeInFlight) && status != Ok then 1 else 0))
    }

    // One poll of a read in flight.
    twostate predicate ReadPolled(nowMs: u32)
      requires old(Valid()) && old(channels) != []
      reads this, cache, rtu, rtu.response
    {
      WritesKept() && RawKept() &&
      var poll := old(PollOnce(rtu.fpu, rtu.activeChannel, rtu.Held(), rtu.line, Wrap32(nowMs - rtu.startedAtMs) >= rtu.timeoutMs));
      ReadAdvances(old(View()), View(), poll, settings.maxRetryTimes, nowMs) &&
      match poll
      case Waiting(held) => GoesOn(held)
      case Finished(_, _) => !rtu.transactionActive && nextPollAtMs == Wrap32(nowMs + settings.executionIntervalMs)
    }

    // The queued pass-through request leaves the queue, onto the bus or into a failure.
    twostate predicate RawStarted(nowMs: u32, delivered: bool)
      reads this, cache, rtu
    {
      old(pendingRaw).Some? && pendingRaw.None? && View() == old(View()) && WritesKept() && nextPollAtMs == old(nextPollAtMs) &&
      rtu.transactionActive == (rtu.started && 0 < |old(pendingRaw).value.payload| <= 242 && delivered) &&
      rawInFlight == rtu.transactionActive &&
      if rtu.transactionActive then
        rtu.kind == Raw && rtu.activeRequest == old(pendingRaw).value.payload && activeRaw == old(pendingRaw).value &&
        rawCompletion == old(rawCompletion)
      else rawCompletion == Some(RawCompletion(old(pendingRaw).value.origin, false, [], nowMs))
    }

    // So does the queued write.
    twostate predicate WriteStarted(nowMs: u32, delivered: bool)
      reads this, cache, rtu
    {
      old(pendingWrite).Some? && pendingWrite.None? && activeWrite == old(pendingWrite).value && View() == old(View()) && RawKept() &&
      var built := WriteRequest(rtu.fpu, activeWrite.channel, activeWrite.registerIndex, activeWrite.value, 17);
      rtu.transactionActive == (rtu.started && built.Frame? && delivered) && writeInFlight == rtu.transactionActive &&
      successfulWrites == old(successfulWrites) &&
      failedWrites == Wrap32(old(failedWrites) + (if rtu.transactionActive then 0 else 1)) &&
      nextPollAtMs == (if rtu.transactionActive then old(nextPollAtMs) else nowMs) &&
      (rtu.transactionActive ==> rtu.kind == Write && Built.Frame(rtu.activeRequest) == built)
    }

    // The channel whose turn it is is polled, if there is one and it is time.
    twostate predicate PollStarted(nowMs: u32, delivered: bool)
      requires old(Valid())
      reads this, cache, rtu
    {
      WritesKept() && RawKept() &&
      if old(channels) == [] || SignedDistance(nowMs, old(nextPollAtMs)) < 0
      then !rtu.transactionActive && View() == old(View()) && nextPollAtMs == old(nextPollAtMs)
      else
        var c := old(channels[pollChannelIndex]);
        rtu.transactionActive == (rtu.started && ReadRequest(c, 8).Frame? && delivered) &&
        if rtu.transactionActive
        then View() == old(View()) && rtu.kind == Read && rtu.activeChannel == c && nextPollAtMs == old(nextPollAtMs) &&
             Built.Frame(rtu.activeRequest) == ReadRequest(c, 8)
        else View() == FinishOf(old(View()), Bad(rtu.lastStatus, rtu.lastExceptionCode, nowMs), settings.maxRetryTimes) &&
             nextPollAtMs == Wrap32(nowMs + settings.executionIntervalMs)
    }

    method FinishPollAttempt(channel: ChannelConfig, o: Outcome)
      requires Coherent(View()) && channels != [] && channel == channels[pollChannelIndex] && Plausible(channel, o)
      requires pollRetryCount <= settings.maxRetryTimes
      modifies this`pollRetryCount, this`pollChannelIndex, this`completedPoll, cache
      ensures View() == FinishOf(old(View()), o, settings.maxRetryTimes) && Coherent(View())
      ensures pollRetryCount <= settings.maxRetryTimes
    {
      FinishKeepsCoherent(View(), o, settings.maxRetryTimes);
      assert Backed(channels, channel.slot, cache[..][channel.slot]);
      hide Find, Backed, ReadingOf;
      var entry := cache[channel.slot];
      match o {
      case Good(count, values, at) =>
        cache[channel.slot] := Cache(true, count, [values[0], if count > 1 then values[1] else entry.values[1]], at, Ok, 0);
        completedPoll := Some(GoodPoll(channel, o));
      case Bad(status, code, at) =>
        cache[channel.slot] := entry.(status := status, code := code);
        if pollRetryCount < settings.maxRetryTimes {
          pollRetryCount := pollRetryCount + 1;
          return;
        }
        cache[channel.slot] := cache[channel.slot].(valid := false, count := 0);
        completedPoll := Some(FailedPoll(channel, o));
      }
      pollRetryCount := 0;
      pollChannelIndex := (pollChannelIndex + 1) % |channels|;
    }

    method LoopRaw(idle: bool, nowMs: u32)
      requires Valid() && rtu.transactionActive && rtu.kind == Raw
      modifies this`rawCompletion, this`rawInFlight, this`nextPollAtMs, rtu, rtu.response
      ensures Valid() && RawPolled(idle, nowMs)
    {
      hide Coherent;
      var result, response := rtu.PollRaw(idle, nowMs, RESPONSE_CAPACITY);
      if result == Pending { return; }
      var success := result == Success;
      rawCompletion := Some(RawCompletion(activeRaw.origin, success, if success then response else [], nowMs));
      rawInFlight := false;
      nextPollAtMs := nowMs;
    }

    method LoopWrite(nowMs: u32)
      requires Valid() && rtu.transactionActive && rtu.kind == Write
      modifies this`writeInFlight, this`successfulWrites, this`failedWrites, this`nextPollAtMs, cache, rtu, rtu.response
      ensures Valid() && WritePolled(nowMs)
    {
      hide Coherent, PollWriteOnce, Fits, Downlink.BoardSupports, Downlink.ValidMaster, ReadExtent;
      ghost var before := View();
      var result := rtu.PollWrite(nowMs);
      if result == Pending { return; }
      if writeInFlight {
        if result == Success {
          ApplySuccessfulWriteToCache(activeWrite, nowMs);
          successfulWrites := Wrap32(successfulWrites + 1);
        } else {
          failedWrites := Wrap32(failedWrites + 1);
        }
        writeInFlight := false;
      }
      nextPollAtMs := nowMs;
    }

    method ApplySuccessfulWriteToCache(write: WriteJob, nowMs: u32)
      requires Coherent(View()) && Fits(channels, write)
      modifies cache
      ensures View() == WriteThroughOf(old(View()), write, nowMs) && Coherent(View())
    {
      WriteThroughKeepsCoherent(View(), write, nowMs);
      hide Find, KindMatches;
      assert Backed(channels, write.channel.slot, cache[..][write.channel.slot]);
      var cached := cache[write.channel.slot];
      if !cached.valid || cached.count != write.channel.quantity {
        cache[write.channel.slot] := cached.(valid := false, count := 0);
        return;
      }
      cache[write.channel.slot] := Cache(true, cached.count, cached.values[write.registerIndex := write.value], nowMs, Ok, 0);
    }

    // Polls the read in flight; the outcome once it is complete.
    method PollActiveRead(nowMs: u32) returns (o: Option<Outcome>)
      requires rtu.Valid() && rtu.transactionActive && rtu.kind == Read
      modifies rtu, rtu.response
      ensures rtu.Valid() && rtu.response == old(rtu.response)
      ensures match old(PollOnce(rtu.fpu, rtu.activeChannel, rtu.Held(), rtu.line, Wrap32(nowMs - rtu.startedAtMs) >= rtu.timeoutMs))
              case Waiting(held) => o.None? && rtu.StillRunning(held) && rtu.line == []
              case Finished(read, _) =>
                !rtu.transactionActive && (read.Values? ==> ReadingOf(old(rtu.activeChannel), read.values)) &&
                (read.Values? ==> |read.values| <= 2) && o == Some(OutcomeOf(read, nowMs))
    {
      hide PollOnce, ReadingOf, ReadExtent, WriteExtent, ExpectedLength, Reports;
      ghost var timedOut := Wrap32(nowMs - rtu.startedAtMs) >= rtu.timeoutMs;
      PollReportsReading(rtu.fpu, rtu.activeChannel, rtu.Held(), rtu.line, timedOut);
      ghost var poll := PollOnce(rtu.fpu, rtu.activeChannel, rtu.Held(), rtu.line, timedOut);
      var values := new Scalar[2](i requires 0 <= i < 2 => NO_VALUES[i]);
      assert values[..] == NO_VALUES;
      var result, valueCount := rtu.PollRead(values, nowMs);
      if result == Pending { return None; }
      ReportMeansOutcome(poll.outcome, values[..], rtu.lastStatus, valueCount, rtu.lastExceptionCode, nowMs);
      return Some(if result == Success then Good(valueCount, values[..], nowMs)
                  else Bad(rtu.lastStatus, rtu.lastExceptionCode, nowMs));
    }

    method LoopRead(nowMs: u32)
      requires Valid() && rtu.transactionActive && rtu.kind == Read
      modifies this`pollRetryCount, this`pollChannelIndex, this`completedPoll, this`nextPollAtMs, cache, rtu, rtu.response
      ensures Valid() && old(channels) != [] && ReadPolled(nowMs)
    {
      hide Coherent, PollOnce, Plausible, FinishOf, Fits, ReadingOf;
      ghost var active := rtu.activeChannel;
      ghost var poll := PollOnce(rtu.fpu, active, rtu.Held(), rtu.line, Wrap32(nowMs - rtu.startedAtMs) >= rtu.timeoutMs);
      var channel := channels[pollChannelIndex];
      var o := PollActiveRead(nowMs);
      if o.None? { return; }
      OutcomeIsPlausible(active, channel, poll.outcome, nowMs);
      FinishPollAttempt(channel, o.value);
      nextPollAtMs := Wrap32(nowMs + settings.executionIntervalMs);
    }

    method StartQueuedRaw(nowMs: u32, delivered: bool)
      requires Valid() && !rtu.transactionActive && pendingRaw.Some?
      modifies this`pendingRaw, this`activeRaw, this`rawCompletion, this`rawInFlight, rtu
      ensures Valid() && RawStarted(nowMs, delivered)
    {
      hide Coherent, Fits, Downlink.BoardSupports, Downlink.ValidMaster, ReadExtent, WriteExtent;
      activeRaw := pendingRaw.value;
      pendingRaw := None;
      var begun := rtu.StartRaw(activeRaw.payload, nowMs, delivered);
      if !begun { rawCompletion := Some(RawCompletion(activeRaw.origin, false, [], nowMs)); }
      rawInFlight := begun;
    }

    method StartQueuedWrite(nowMs: u32, delivered: bool)
      requires Valid() && !rtu.transactionActive && pendingWrite.Some?
      modifies this`pendingWrite, this`activeWrite, this`failedWrites, this`nextPollAtMs, this`writeInFlight, rtu
      ensures Valid() && WriteStarted(nowMs, delivered)
    {
      hide Coherent, WriteRequest, Fits, Downlink.BoardSupports, Downlink.ValidMaster, ReadExtent;
      activeWrite := pendingWrite.value;
      pendingWrite := None;
      var begun := rtu.StartWrite(activeWrite.channel, activeWrite.registerIndex, activeWrite.value, nowMs, delivered);
      if !begun {
        failedWrites := Wrap32(failedWrites + 1);
        nextPollAtMs := nowMs;
      }
      writeInFlight := begun;
    }

    // The next poll, when it is due; a poll that cannot even start counts as a failed attempt.
    method StartPoll(nowMs: u32, delivered: bool)
      requires Valid() && !rtu.transactionActive && pendingWrite.None?
      modifies this`pollRetryCount, this`pollChannelIndex, this`completedPoll, this`nextPollAtMs, cache, rtu
      ensures Valid() && PollStarted(nowMs, delivered)
    {
      hide Coherent, ReadRequest, FinishOf, Find;
      if channels == [] { return; }
      if SignedDistance(nowMs, nextPollAtMs) < 0 { return; }
      IndexInRange(View());
      var channel := channels[pollChannelIndex];
      var begun := rtu.StartRead(channel, nowMs, delivered);
      if !begun {
        FinishPollAttempt(channel, Bad(rtu.lastStatus, rtu.lastExceptionCode, nowMs));
        nextPollAtMs := Wrap32(nowMs + settings.executionIntervalMs);
      }
    }

    // One loop step. `idle` says whether the line has been quiet long enough to end a raw
    // response, `passive` what the collector of unsolicited frames says, `delivered` whether the
    // serial driver takes a whole request.
    method Loop(idle: bool, passive: Passive, nowMs: u32, delivered: bool)
      requires Valid()
      modifies this, cache, rtu, rtu.response
      ensures Valid() && settings == old(settings) && mode == old(mode) && active == old(active) && channels == old(channels)
      ensures rs485 == old(rs485) && serialBaudRate == old(serialBaudRate) && serialTimeoutMs == old(serialTimeoutMs)
      ensures if !(mode == Master_ && active) then Untouched(old(nextPollAtMs))
              else if old(rtu.transactionActive) then
                match old(rtu.kind)
                case Raw => RawPolled(idle, nowMs)
                case Write => WritePolled(nowMs)
                case Read => channels != [] && ReadPolled(nowMs)
                case Idle => false
              else if passive != Quiet then
                Untouched(if passive == Collecting then old(nextPollAtMs) else nowMs)
              else if old(pendingRaw).Some? then RawStarted(nowMs, delivered)
              else if settings.passThroughMode == TWO_WAY then Untouched(old(nextPollAtMs))
              else if old(pendingWrite).Some? then WriteStarted(nowMs, delivered)
              else PollStarted(nowMs, delivered)
      ensures passiveFrame == if mode == Master_ && active && !old(rtu.transactionActive) && passive.FrameReady?
                              then Some(passive.frame) else old(passiveFrame)
    {
      hide Coherent, ReadAdvances, PollOnce, FinishOf, ReadRequest, WriteRequest, PollRawOnce, PollWriteOnce, Fits, WriteThroughOf,
           SignedDistance, Wrap32, Downlink.BoardSupports, Downlink.ValidMaster, ReadExtent, WriteExtent;
      if mode != Master_ || !active { return; }
      if rtu.transactionActive {
        match rtu.kind {
          case Raw => LoopRaw(idle, nowMs);
          case Write => LoopWrite(nowMs);
          case Read => LoopRead(nowMs);
          case Idle => assert false;
        }
        return;
      }
      if passive.FrameReady? {
        passiveFrame := Some(passive.frame);
        nextPollAtMs := nowMs;
        return;
      }
      if passive == Overflow {
        nextPollAtMs := nowMs;
        return;
      }
      if passive == Collecting { return; }
      if pendingRaw.Some? {
        StartQueuedRaw(nowMs, delivered);
        return;
      }
      if settings.passThroughMode == TWO_WAY { return; }
      if pendingWrite.Some? {
        StartQueuedWrite(nowMs, delivered);
        return;
      }
      StartPoll(nowMs, delivered);
    }
  }

  lemma IndexInRange(p: Poller)
    requires Coherent(p) && p.channels != []
    ensures p.index < |p.channels| && ValidChannelConfig(p.channels[p.index])
  {
  }

  // What the master reports of its active channel is plausible for the configured channel, which
  // differs from it at most in name.
  lemma OutcomeIsPlausible(active: ChannelConfig, channel: ChannelConfig, read: ReadOutcome, at: u32)
    requires SameButName(active, channel) && (read.Values? ==> |read.values| <= 2 && ReadingOf(active, read.values))
    ensures Plausible(channel, OutcomeOf(read, at))
  {
    if read.Values? {
      var o := OutcomeOf(read, at);
      assert o.values[..o.count] == read.values;
      RenamedReading(active, channel, read.values);
    }
  }

  // A new name changes neither what a transaction was started for nor what a write is meant for.
  lemma RenameKeepsFlight(channels: seq<ChannelConfig>, slot: byte, name: seq<byte>)
    requires Distinct(channels)
    ensures forall w: WriteJob :: Fits(channels, w) ==> Fits(Renamed(channels, slot, name), w)
    ensures |Renamed(channels, slot, name)| == |channels|
    ensures forall k :: 0 <= k < |channels| ==> SameButName(channels[k], Renamed(channels, slot, name)[k])
  {
    hide Find;
    forall w: WriteJob | Fits(channels, w)
      ensures Fits(Renamed(channels, slot, name), w)
    {
      RenamedFinds(channels, slot, name, w.channel.slot);
    }
  }

  lemma CoherentWithoutRetries(p: Poller)
    ensures Coherent(p.(retries := 0)) == Coherent(p)
  {
  }

  // Cancelling first makes no difference to what is removed.
  lemma RemoveAfterCancel(p: Poller, slot: byte, cancelled: bool)
    requires |p.cache| == 32
    ensures var after := p.(retries := if cancelled then 0 else p.retries);
            RemoveOf(p, slot, cancelled) == if Find(p.channels, slot).None? then after else RemoveOf(after, slot, cancelled)
    ensures RemoveOf(p, slot, cancelled).retries <= p.retries
  {
    hide Find, Removed;
  }

  lemma CoherentParts(p: Poller)
    requires Coherent(p)
    ensures |p.cache| == 32 && Distinct(p.channels)
  {
  }
}
