// The report scheduler: it snapshots the latest poll results when a report is due, sends them
// packet by packet, and offers a failed packet again until it is sent.
module ReportScheduler {
  import opened Words
  import opened Channel
  import opened Uplink
  import opened ReportPacking

  const RETRY_MS: int := 5000
  const DEFAULT_INTERVAL: u16 := 1200

  datatype Status = NotDue | PacketReady | EmptyReport | EncodeError | BufferTooSmall

  predicate ValidInterval(seconds: u16) {
    60 <= seconds <= 64800
  }

  // The firmware's clock wraps at 2^32 milliseconds; the reference clock does not.
  datatype Clock = Wrapping | Unbounded

  function Later(clock: Clock, t: int, ms: int): int {
    if clock.Wrapping? then Wrap32(t + ms) else t + ms
  }

  // static_cast<int32_t>(now - at) >= 0
  predicate Due(clock: Clock, now: int, at: int) {
    if clock.Wrapping? then SignedDistance(Wrap32(now), Wrap32(at)) >= 0 else now >= at
  }

  // The scheduler's state. The payload is that of the pending packet.
  datatype Sched = Sched(
    interval: u16, samples: Snapshot, report: Snapshot, nextAt: int, retryAt: int, cursor: nat,
    pendingNext: nat, inProgress: bool, pending: bool, immediate: bool, payload: seq<byte>)

  predicate WellFormed(s: Sched) {
    s.cursor <= 32 && s.pendingNext <= 32 && |s.payload| <= PAYLOAD_LIMIT && ValidInterval(s.interval)
  }

  // ---- the operations, on states ----

  function BeginOf(clock: Clock, s: Sched, seconds: u16, now: int): Sched {
    var interval := if ValidInterval(seconds) then seconds else DEFAULT_INTERVAL;
    s.(interval := interval, nextAt := Later(clock, now, interval as int * 1000), inProgress := false,
       pending := false, cursor := 0, retryAt := 0, immediate := false, payload := [])
  }

  function ApplySettingsOf(clock: Clock, s: Sched, seconds: u16, now: int): Sched {
    if !ValidInterval(seconds) then s
    else s.(interval := seconds, nextAt := Later(clock, now, seconds as int * 1000))
  }

  // The values a slot keeps: those of the poll where it has them, otherwise the earlier ones.
  function Recorded(old_: Sample, c: ChannelConfig, success: bool, values: Option<seq<Scalar>>, count: byte): Sample
    requires (old_.Present? ==> |old_.values| == 2) && (values.Some? ==> |values.value| == 2)
  {
    var kept := if old_.Present? then old_.values else [Unsigned(0), Unsigned(0)];
    var taken := if success && values.Some? && count > 0
                 then [values.value[0], if count > 1 then values.value[1] else kept[1]] else kept;
    Present(c, success, if success then count else 0, taken)
  }

  function RecordPollOf(s: Sched, c: ChannelConfig, success: bool, values: Option<seq<Scalar>>, count: byte): Sched
    requires values.Some? ==> |values.value| == 2
  {
    if !ValidChannelConfig(c) then s
    else s.(samples := s.samples[c.slot := Recorded(s.samples[c.slot], c, success, values, count)])
  }

  function ClearSlotOf(s: Sched, slot: byte): Sched {
    if slot >= 32 then s
    else s.(samples := s.samples[slot := Absent], report := s.report[slot := Absent])
  }

  datatype Prepared = Prepared(state: Sched, status: Status, output: seq<byte>)

  // The report starts, unless one is already under way: the samples are frozen.
  function Started(clock: Clock, s: Sched, now: int): Sched {
    if s.inProgress then s
    else s.(report := s.samples, inProgress := true, cursor := 0, immediate := false,
            nextAt := if Due(clock, now, s.nextAt) then Later(clock, now, s.interval as int * 1000) else s.nextAt)
  }

  function PrepareOf(clock: Clock, fpu: Fpu, s: Sched, now: int, capacity: nat): Prepared
    requires WellFormed(s)
  {
    if capacity < PAYLOAD_LIMIT then Prepared(s, BufferTooSmall, [])
    else if s.pending then
      if Due(clock, now, s.retryAt) then Prepared(s, PacketReady, s.payload) else Prepared(s, NotDue, [])
    else if !s.inProgress && !s.immediate && !Due(clock, now, s.nextAt) then Prepared(s, NotDue, [])
    else
      var r := Started(clock, s, now);
      match FillFrom(fpu, r.report, r.cursor, [])
      case EncodeFailed => Prepared(r, EncodeError, [])
      case TooLarge => Prepared(r, BufferTooSmall, [])
      case Filled(payload, next) =>
        if payload == [] then Prepared(r.(inProgress := false, cursor := 0), EmptyReport, [])
        else Prepared(r.(pending := true, payload := payload, pendingNext := next, retryAt := now), PacketReady, payload)
  }

  function SentOf(s: Sched, now: int): Sched {
    if !s.pending then s
    else
      var done := s.pendingNext >= 32;
      s.(cursor := if done then 0 else s.pendingNext, pending := false, payload := [], retryAt := now,
         inProgress := s.inProgress && !done)
  }

  function SendFailedOf(clock: Clock, s: Sched, now: int): Sched {
    if !s.pending then s else s.(retryAt := Later(clock, now, RETRY_MS))
  }

  function AbortOf(s: Sched): Sched {
    s.(pending := false, payload := [], inProgress := false, cursor := 0)
  }

  lemma PrepareIsWellFormed(clock: Clock, fpu: Fpu, s: Sched, now: int, capacity: nat)
    requires WellFormed(s)
    ensures WellFormed(PrepareOf(clock, fpu, s, now, capacity).state)
  {
    hide FillFrom;
    var r := Started(clock, s, now);
    if FillFrom(fpu, r.report, r.cursor, []).Filled? { FillHoldsWholeSlots(fpu, r.report, r.cursor, []); }
  }

  // ---- the object ----

  class Scheduler {
    const fpu: Fpu
    var interval: u16
    var samples: array<Sample>
    var reportSamples: array<Sample>
    var nextReportAtMs: u32
    var retryAtMs: u32
    var cursor: nat
    var pendingNextCursor: nat
    var reportInProgress: bool
    var pending: bool
    var immediateReportRequested: bool
    var pendingPayload: array<byte>
    var pendingLength: nat

    ghost predicate Valid()
      reads this, samples, reportSamples, pendingPayload
    {
      samples.Length == reportSamples.Length == 32 && samples != reportSamples &&
      pendingPayload.Length == PAYLOAD_LIMIT && pendingLength <= PAYLOAD_LIMIT &&
      (forall k :: 0 <= k < 32 ==> samples[k].Present? ==> |samples[k].values| == 2) &&
      (forall k :: 0 <= k < 32 ==> reportSamples[k].Present? ==> |reportSamples[k].values| == 2) &&
      cursor <= 32 && pendingNextCursor <= 32 && ValidInterval(interval)
    }

    ghost function View(): (s: Sched)
      requires Valid()
      reads this, samples, reportSamples, pendingPayload
      ensures WellFormed(s)
    {
      Sched(interval, samples[..], reportSamples[..], nextReportAtMs, retryAtMs, cursor, pendingNextCursor,
            reportInProgress, pending, immediateReportRequested, if pending then pendingPayload[..pendingLength] else [])
    }

    twostate predicate SameBuffers()
      reads this
    {
      samples == old(samples) && reportSamples == old(reportSamples) && pendingPayload == old(pendingPayload)
    }

    constructor (fpu: Fpu)
      ensures Valid() && fresh(samples) && fresh(reportSamples) && fresh(pendingPayload) && this.fpu == fpu
      ensures View() == Sched(DEFAULT_INTERVAL, seq(32, _ => Absent), seq(32, _ => Absent), 0, 0, 0, 0, false, false, false, [])
    {
      this.fpu := fpu;
      interval := DEFAULT_INTERVAL;
      samples := new Sample[32](_ => Absent);
      reportSamples := new Sample[32](_ => Absent);
      nextReportAtMs, retryAtMs, cursor, pendingNextCursor := 0, 0, 0, 0;
      reportInProgress, pending, immediateReportRequested := false, false, false;
      pendingPayload := new byte[PAYLOAD_LIMIT](_ => 0);
      pendingLength := 0;
    }

    method Begin(seconds: u16, nowMs: u32)
      requires Valid()
      modifies this
      ensures Valid() && SameBuffers() && View() == BeginOf(Wrapping, old(View()), seconds, nowMs)
    {
      interval := if ValidInterval(seconds) then seconds else DEFAULT_INTERVAL;
      nextReportAtMs := Wrap32(nowMs + interval as int * 1000);
      reportInProgress, pending, cursor, retryAtMs, immediateReportRequested := false, false, 0, 0, false;
    }

    method ApplySettings(seconds: u16, nowMs: u32) returns (ok: bool)
      requires Valid()
      modifies this
      ensures Valid() && SameBuffers() && ok == ValidInterval(seconds)
      ensures View() == ApplySettingsOf(Wrapping, old(View()), seconds, nowMs)
    {
      if !ValidInterval(seconds) { return false; }
      interval := seconds;
      nextReportAtMs := Wrap32(nowMs + seconds as int * 1000);
      return true;
    }

    method RequestImmediateReport()
      requires Valid()
      modifies this
      ensures Valid() && SameBuffers() && View() == old(View()).(immediate := true)
    {
      immediateReportRequested := true;
    }

    method RecordPoll(c: ChannelConfig, success: bool, values: Option<seq<Scalar>>, valueCount: byte)
      requires Valid() && (values.Some? ==> |values.value| == 2)
      modifies samples
      ensures Valid() && View() == RecordPollOf(old(View()), c, success, values, valueCount)
    {
      if !ValidChannelConfig(c) { return; }
      var kept := if samples[c.slot].Present? then samples[c.slot].values else [Unsigned(0), Unsigned(0)];
      if success && values.Some? && valueCount > 0 {
        kept := kept[0 := values.value[0]];
        if valueCount > 1 { kept := kept[1 := values.value[1]]; }
      }
      samples[c.slot] := Present(c, success, if success then valueCount else 0, kept);
      assert kept == Recorded(old(samples[c.slot]), c, success, values, valueCount).values;
      assert samples[..] == old(samples[..])[c.slot := samples[c.slot]];
    }

    method ClearSlot(slot: byte)
      requires Valid()
      modifies samples, reportSamples
      ensures Valid() && View() == ClearSlotOf(old(View()), slot)
    {
      if slot >= 32 { return; }
      samples[slot] := Absent;
      reportSamples[slot] := Absent;
      assert samples[..] == old(samples[..])[slot := Absent];
      assert reportSamples[..] == old(reportSamples[..])[slot := Absent];
    }

    method MarkPacketSent(nowMs: u32)
      requires Valid()
      modifies this
      ensures Valid() && SameBuffers() && View() == SentOf(old(View()), nowMs)
    {
      if !pending { return; }
      cursor := pendingNextCursor;
      pending := false;
      pendingLength := 0;
      retryAtMs := nowMs;
      if cursor >= 32 {
        reportInProgress := false;
        cursor := 0;
      }
    }

    method MarkPacketFailed(nowMs: u32)
      requires Valid()
      modifies this
      ensures Valid() && SameBuffers() && View() == SendFailedOf(Wrapping, old(View()), nowMs)
    {
      if !pending { return; }
      retryAtMs := Wrap32(nowMs + 5000);
    }

    method AbortReport()
      requires Valid()
      modifies this
      ensures Valid() && SameBuffers() && View() == AbortOf(old(View()))
    {
      pending := false;
      pendingLength := 0;
      reportInProgress := false;
      cursor := 0;
    }

    // The encoding of one sample into the 24-byte buffer.
    method EncodeSample(sample: Sample, encoded: array<byte>) returns (ok: bool, length: nat)
      requires sample.Present? && |sample.values| == 2 && encoded.Length == ENCODED_LIMIT
      modifies encoded
      ensures ok == Encoding(fpu, sample).Bytes?
      ensures ok ==> length <= ENCODED_LIMIT && encoded[..length] == Encoding(fpu, sample).bytes && length > 0
    {
      hide ValueFrames;
      var status;
      if sample.success {
        status, length := EncodePollSuccess(fpu, sample.channel, sample.values, sample.valueCount, encoded);
      } else {
        status, length := EncodePollFailure(sample.channel, encoded);
      }
      if Encoding(fpu, sample).Bytes? { EncodingSize(fpu, sample); }
      if status != Done || length == 0 { return false, 0; }
      return true, length;
    }

    // The scan loop: whole channels are appended to the payload until one does not fit.
    method FillPacket() returns (fill: Status, length: nat, scan: nat)
      requires Valid() && !pending
      modifies pendingPayload
      ensures match FillFrom(fpu, reportSamples[..], cursor, [])
              case EncodeFailed => fill == EncodeError
              case TooLarge => fill == BufferTooSmall
              case Filled(payload, next) =>
                fill == PacketReady && length == |payload| <= PAYLOAD_LIMIT && scan == next <= 32 && pendingPayload[..length] == payload
    {
      hide Encoding;
      length, scan := 0, cursor;
      ghost var report: Snapshot := reportSamples[..];
      ghost var total := FillFrom(fpu, report, cursor, []);
      while scan < 32
        invariant cursor <= scan <= 32 && length <= PAYLOAD_LIMIT && reportSamples[..] == report
        invariant total == FillFrom(fpu, report, scan, pendingPayload[..length])
      {
        var sample := reportSamples[scan];
        if sample.Absent? {
          scan := scan + 1;
          continue;
        }
        var encoded := new byte[24](_ => 0);
        var ok, encodedLength := EncodeSample(sample, encoded);
        if !ok { return EncodeError, 0, scan; }
        if length + encodedLength > PAYLOAD_LIMIT {
          if length == 0 { assert false; }
          break;
        }
        ghost var before, bytes := pendingPayload[..length], encoded[..encodedLength];
        assert total == FillFrom(fpu, report, scan + 1, before + bytes);
        forall i | 0 <= i < encodedLength { pendingPayload[length + i] := encoded[i]; }
        assert pendingPayload[..length + encodedLength] == before + bytes;
        length := length + encodedLength;
        scan := scan + 1;
      }
      return PacketReady, length, scan;
    }

    // Starts a report if none is under way and one is due or requested.
    method StartReport(nowMs: u32) returns (running: bool)
      requires Valid() && !pending
      modifies this, reportSamples
      ensures Valid() && SameBuffers() && !pending
      ensures running == old(reportInProgress || immediateReportRequested || Due(Wrapping, nowMs, nextReportAtMs))
      ensures View() == if running then Started(Wrapping, old(View()), nowMs) else old(View())
    {
      if reportInProgress { return true; }
      var periodicDue := SignedDistance(nowMs, nextReportAtMs) >= 0;
      if !immediateReportRequested && !periodicDue { return false; }
      forall i | 0 <= i < 32 { reportSamples[i] := samples[i]; }
      assert reportSamples[..] == samples[..];
      reportInProgress := true;
      cursor := 0;
      immediateReportRequested := false;
      if periodicDue { nextReportAtMs := Wrap32(nowMs + interval as int * 1000); }
      return true;
    }

    method CopyPending(output: array<byte>) returns (written: nat)
      requires Valid() && output != pendingPayload && output.Length >= PAYLOAD_LIMIT
      modifies output
      ensures written == pendingLength && output[..written] == pendingPayload[..pendingLength]
    {
      forall i | 0 <= i < pendingLength { output[i] := pendingPayload[i]; }
      return pendingLength;
    }

    method PreparePacket(nowMs: u32, output: array<byte>) returns (status: Status, written: nat)
      requires Valid() && output != pendingPayload
      modifies this, reportSamples, pendingPayload, output
      ensures Valid() && SameBuffers()
      ensures var p := PrepareOf(Wrapping, fpu, old(View()), nowMs, output.Length);
              View() == p.state && status == p.status && written == |p.output| <= output.Length &&
              output[..written] == p.output
    {
      hide FillFrom, Started, SignedDistance;
      if output.Length < PAYLOAD_LIMIT { return BufferTooSmall, 0; }
      if pending {
        if SignedDistance(nowMs, retryAtMs) < 0 { return NotDue, 0; }
        written := CopyPending(output);
        return PacketReady, written;
      }
      var running := StartReport(nowMs);
      if !running { return NotDue, 0; }
      ghost var started := View();
      var fill, length, scan := FillPacket();
      assert View() == started;
      if fill != PacketReady { return fill, 0; }
      if length == 0 {
        reportInProgress := false;
        cursor := 0;
        return EmptyReport, 0;
      }
      pending := true;
      pendingLength := length;
      pendingNextCursor := scan;
      retryAtMs := nowMs;
      written := CopyPending(output);
      return PacketReady, written;
    }
  }
}
