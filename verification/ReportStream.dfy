// What the report scheduler does over whole runs.
module ReportStream {
  import opened Words
  import opened Channel
  import opened RtuCodec
  import opened Uplink
  import opened ReportPacking
  import opened ReportScheduler

  datatype Op =
    | Begin(seconds: u16, now: nat)
    | ApplySettings(seconds: u16, now: nat)
    | RequestImmediate
    | RecordPoll(channel: ChannelConfig, success: bool, values: Option<seq<Scalar>>, count: byte)
    | ClearSlot(slot: byte)
    | Prepare(now: nat, capacity: nat)
    | Sent(now: nat)
    | SendFailed(now: nat)
    | Abort

  predicate WellTyped(op: Op) {
    op.RecordPoll? && op.values.Some? ==> |op.values.value| == 2
  }

  predicate AllWellTyped(ops: seq<Op>) {
    forall k :: 0 <= k < |ops| ==> WellTyped(ops[k])
  }

  function Step(clock: Clock, fpu: Fpu, s: Sched, op: Op): (r: Sched)
    requires WellFormed(s) && WellTyped(op)
    ensures WellFormed(r)
  {
    match op
    case Begin(seconds, now) => BeginOf(clock, s, seconds, now)
    case ApplySettings(seconds, now) => ApplySettingsOf(clock, s, seconds, now)
    case RequestImmediate => s.(immediate := true)
    case RecordPoll(c, success, values, count) => RecordPollOf(s, c, success, values, count)
    case ClearSlot(slot) => ClearSlotOf(s, slot)
    case Prepare(now, capacity) =>
      PrepareIsWellFormed(clock, fpu, s, now, capacity);
      PrepareOf(clock, fpu, s, now, capacity).state
    case Sent(now) => SentOf(s, now)
    case SendFailed(now) => SendFailedOf(clock, s, now)
    case Abort => AbortOf(s)
  }

  // ---- the stream of confirmed packets ----

  // The scheduler with a record of what its caller saw: the samples present when the running
  // report started, the packets confirmed since, and every completed report.
  datatype Completed = Completed(snapshot: Snapshot, packets: seq<seq<byte>>)
  datatype Track = Track(sched: Sched, snapshot: Snapshot, confirmed: seq<seq<byte>>, completed: seq<Completed>)

  function Follow(clock: Clock, fpu: Fpu, t: Track, op: Op): (r: Track)
    requires WellFormed(t.sched) && WellTyped(op)
    ensures WellFormed(r.sched)
  {
    var s, s' := t.sched, Step(clock, fpu, t.sched, op);
    match op
    case Prepare(now, capacity) =>
      var status := PrepareOf(clock, fpu, s, now, capacity).status;
      var snapshot := if s.inProgress || status == NotDue || capacity < PAYLOAD_LIMIT then t.snapshot else s.samples;
      var confirmed := if s.inProgress then t.confirmed else [];
      if status == EmptyReport then Track(s', snapshot, [], t.completed + [Completed(snapshot, confirmed)])
      else Track(s', snapshot, confirmed, t.completed)
    case Sent(now) =>
      if !s.pending then t
      else if s.pendingNext >= 32 then Track(s', t.snapshot, [], t.completed + [Completed(t.snapshot, t.confirmed + [s.payload])])
      else Track(s', t.snapshot, t.confirmed + [s.payload], t.completed)
    case _ => t.(sched := s')
  }

  // The operations that may interleave with a report without cutting it short.
  predicate Benign(op: Op) {
    !op.Begin? && !op.ClearSlot? && !op.Abort?
  }

  function FollowAll(clock: Clock, fpu: Fpu, t: Track, ops: seq<Op>): (r: Track)
    requires WellFormed(t.sched) && AllWellTyped(ops)
    ensures WellFormed(r.sched)
    decreases |ops|
  {
    if ops == [] then t else FollowAll(clock, fpu, Follow(clock, fpu, t, ops[0]), ops[1..])
  }

  // The packets confirmed so far and the ones still to come are the packing of the snapshot.
  ghost predicate OnCourse(fpu: Fpu, t: Track)
    requires WellFormed(t.sched)
  {
    var s := t.sched;
    (if s.inProgress
     then s.report == t.snapshot && t.confirmed + Packets(fpu, s.report, s.cursor) == Packets(fpu, s.report, 0)
     else s.cursor == 0 && !s.pending) &&
    (s.pending ==> FillFrom(fpu, s.report, s.cursor, []) == Filled(s.payload, s.pendingNext) && s.payload != []) &&
    forall k :: 0 <= k < |t.completed| ==> t.completed[k].packets == Packets(fpu, t.completed[k].snapshot, 0)
  }

  lemma PacketsUnfold(fpu: Fpu, report: Snapshot, cursor: nat, payload: seq<byte>, next: nat)
    requires cursor <= 32 && FillFrom(fpu, report, cursor, []) == Filled(payload, next)
    ensures payload == [] ==> Packets(fpu, report, cursor) == []
    ensures payload != [] ==> cursor < next <= 32 && Packets(fpu, report, cursor) == [payload] + Packets(fpu, report, next)
    ensures Packets(fpu, report, 32) == []
  {
    FillHoldsWholeSlots(fpu, report, cursor, []);
  }

  lemma FollowKeepsCourse(clock: Clock, fpu: Fpu, t: Track, op: Op)
    requires WellFormed(t.sched) && WellTyped(op) && Benign(op) && OnCourse(fpu, t)
    ensures OnCourse(fpu, Follow(clock, fpu, t, op))
  {
    hide FillFrom, Packets;
    var s := t.sched;
    match op {
      case Prepare(now, capacity) =>
        var p := PrepareOf(clock, fpu, s, now, capacity);
        var r := Started(clock, s, now);
        var fill := FillFrom(fpu, r.report, r.cursor, []);
        if fill.Filled? { PacketsUnfold(fpu, r.report, r.cursor, fill.payload, fill.next); }
        assert [] + Packets(fpu, s.samples, 0) == Packets(fpu, s.samples, 0);
        assert t.confirmed + [] == t.confirmed;
      case Sent(now) =>
        if s.pending {
          PacketsUnfold(fpu, s.report, s.cursor, s.payload, s.pendingNext);
          var rest := Packets(fpu, s.report, s.pendingNext);
          assert t.confirmed + ([s.payload] + rest) == (t.confirmed + [s.payload]) + rest;
          assert (t.confirmed + [s.payload]) + [] == t.confirmed + [s.payload];
        }
      case _ =>
    }
  }

  lemma {:induction false} RunKeepsCourse(clock: Clock, fpu: Fpu, t: Track, ops: seq<Op>)
    requires WellFormed(t.sched) && AllWellTyped(ops) && OnCourse(fpu, t)
    requires forall k :: 0 <= k < |ops| ==> Benign(ops[k])
    ensures OnCourse(fpu, FollowAll(clock, fpu, t, ops))
    decreases |ops|
  {
    hide Follow, OnCourse;
    if ops == [] {
    } else {
      FollowKeepsCourse(clock, fpu, t, ops[0]);
      RunKeepsCourse(clock, fpu, Follow(clock, fpu, t, ops[0]), ops[1..]);
    }
  }

  predicate IdleState(s: Sched) {
    WellFormed(s) && !s.inProgress && !s.pending && s.cursor == 0
  }

  // Main result: from any idle scheduler, under any interleaving of polls, settings changes,
  // immediate requests, send failures and retries, every completed report went out as packets of
  // whole channels in slot order that concatenate to the encoding of its snapshot. Each packet
  // has 1 to 51 bytes, only the last has fewer than 28, and no other way to cut the channels into
  // packets needs fewer.
  lemma ReportStreamIsExact(clock: Clock, fpu: Fpu, s: Sched, ops: seq<Op>, k: nat) returns (cuts: seq<nat>)
    requires IdleState(s) && AllWellTyped(ops) && forall i :: 0 <= i < |ops| ==> Benign(ops[i])
    requires k < |FollowAll(clock, fpu, Track(s, s.samples, [], []), ops).completed|
    requires Encodable(fpu, FollowAll(clock, fpu, Track(s, s.samples, [], []), ops).completed[k].snapshot)
    ensures var done := FollowAll(clock, fpu, Track(s, s.samples, [], []), ops).completed[k];
            Concat(done.packets) == RangeBytes(fpu, done.snapshot, 0, 32) &&
            CutAt(fpu, done.snapshot, cuts, done.packets) && cuts[0] == 0 &&
            RangeBytes(fpu, done.snapshot, cuts[|cuts| - 1], 32) == [] &&
            forall other :: Partition(fpu, done.snapshot, other) && other[0] == 0 && other[|other| - 1] == 32
                            ==> |done.packets| <= |other| - 1
  {
    hide FillFrom, Packets, Follow, RangeBytes;
    var t := Track(s, s.samples, [], []);
    RunKeepsCourse(clock, fpu, t, ops);
    var done := FollowAll(clock, fpu, t, ops).completed[k];
    PacketsConcatenate(fpu, done.snapshot, 0);
    cuts := PacketsAreCuts(fpu, done.snapshot, 0);
    forall other | Partition(fpu, done.snapshot, other) && other[0] == 0 && other[|other| - 1] == 32
      ensures |done.packets| <= |other| - 1
    {
      GreedyIsOptimal(fpu, done.snapshot, other);
    }
  }

  // ---- a failed packet is offered again, byte for byte ----

  predicate Keeps(op: Op) {
    !op.Begin? && !op.Sent? && !op.Abort?
  }

  function Run(clock: Clock, fpu: Fpu, s: Sched, ops: seq<Op>): (r: Sched)
    requires WellFormed(s) && AllWellTyped(ops)
    ensures WellFormed(r)
    decreases |ops|
  {
    if ops == [] then s else Run(clock, fpu, Step(clock, fpu, s, ops[0]), ops[1..])
  }

  // Until it is sent, the pending packet survives everything but a restart or an abort, even
  // clearing its slots, and every packet offered meanwhile is that one.
  lemma {:induction false} RetryIsIdentical(clock: Clock, fpu: Fpu, s: Sched, ops: seq<Op>, now: nat, capacity: nat)
    requires WellFormed(s) && s.pending && AllWellTyped(ops) && forall i :: 0 <= i < |ops| ==> Keeps(ops[i])
    ensures var r := Run(clock, fpu, s, ops);
            r.pending && r.payload == s.payload && r.pendingNext == s.pendingNext && r.cursor == s.cursor &&
            var p := PrepareOf(clock, fpu, r, now, capacity);
            p.state == r && (p.status == PacketReady ==> p.output == s.payload) &&
            (p.status == PacketReady <==> capacity >= PAYLOAD_LIMIT && Due(clock, now, r.retryAt))
    decreases |ops|
  {
    hide FillFrom, Due;
    if ops == [] {
    } else {
      RetryIsIdentical(clock, fpu, Step(clock, fpu, s, ops[0]), ops[1..], now, capacity);
    }
  }

  // ---- the wrapping clock refines the unbounded one ----

  // Two times less than 2^31 ms apart compare alike on both clocks.
  predicate Near(now: int, at: int) {
    -TWO_31 <= now - at < TWO_31
  }

  // The comparison an operation makes, if any, is between near times.
  predicate NearEnough(s: Sched, op: Op) {
    op.Prepare? ==> (s.pending ==> Near(op.now, s.retryAt)) && (!s.pending && !s.inProgress ==> Near(op.now, s.nextAt))
  }

  // The 32-bit state of a scheduler whose clock does not wrap, and the operation it then sees.
  function Wrapped(s: Sched): Sched {
    s.(nextAt := Wrap32(s.nextAt), retryAt := Wrap32(s.retryAt))
  }

  function WrappedOp(op: Op): Op {
    match op
    case Begin(seconds, now) => Begin(seconds, Wrap32(now))
    case ApplySettings(seconds, now) => ApplySettings(seconds, Wrap32(now))
    case Prepare(now, capacity) => Prepare(Wrap32(now), capacity)
    case Sent(now) => Sent(Wrap32(now))
    case SendFailed(now) => SendFailed(Wrap32(now))
    case _ => op
  }

  lemma DueAgrees(now: nat, at: int)
    requires Near(now, at)
    ensures Due(Wrapping, Wrap32(now), Wrap32(at)) == Due(Unbounded, now, at)
  {
    WrapDifference(now, at);
  }

  lemma WrapDifference(now: int, at: int)
    ensures Wrap32(Wrap32(Wrap32(now)) - Wrap32(Wrap32(at))) == Wrap32(now - at)
  {
  }

  lemma LaterAgrees(t: int, ms: int)
    ensures Later(Wrapping, Wrap32(t), ms) == Wrap32(Later(Unbounded, t, ms))
  {
  }

  lemma StepAgrees(fpu: Fpu, s: Sched, op: Op)
    requires WellFormed(s) && WellTyped(op) && NearEnough(s, op)
    ensures Step(Wrapping, fpu, Wrapped(s), WrappedOp(op)) == Wrapped(Step(Unbounded, fpu, s, op))
    ensures op.Prepare? ==>
              var p, q := PrepareOf(Wrapping, fpu, Wrapped(s), Wrap32(op.now), op.capacity), PrepareOf(Unbounded, fpu, s, op.now, op.capacity);
              p.status == q.status && p.output == q.output
  {
    hide FillFrom, Due, Later, Wrap32;
    match op {
      case Begin(seconds, now) => LaterAgrees(now, (if ValidInterval(seconds) then seconds else DEFAULT_INTERVAL) as int * 1000);
      case ApplySettings(seconds, now) => LaterAgrees(now, seconds as int * 1000);
      case SendFailed(now) => LaterAgrees(now, RETRY_MS);
      case Prepare(now, capacity) =>
        LaterAgrees(now, s.interval as int * 1000);
        if s.pending { DueAgrees(now, s.retryAt); }
        if !s.pending && !s.inProgress { DueAgrees(now, s.nextAt); }
      case _ =>
    }
    WrapZero();
  }

  lemma WrapZero()
    ensures Wrap32(0) == 0
  {
  }

  function WrappedOps(ops: seq<Op>): (r: seq<Op>)
    ensures |r| == |ops| && (AllWellTyped(ops) ==> AllWellTyped(r))
    ensures forall k :: 0 <= k < |ops| ==> r[k] == WrappedOp(ops[k])
  {
    seq(|ops|, k requires 0 <= k < |ops| => WrappedOp(ops[k]))
  }

  ghost predicate NearRun(fpu: Fpu, s: Sched, ops: seq<Op>)
    requires WellFormed(s) && AllWellTyped(ops)
    decreases |ops|
  {
    ops != [] ==> NearEnough(s, ops[0]) && NearRun(fpu, Step(Unbounded, fpu, s, ops[0]), ops[1..])
  }

  // Main result: a run whose comparisons are all between times less than 2^31 ms apart goes the
  // same on the 32-bit clock as on a clock that never wraps, and so does the next call.
  lemma {:induction false} WrappingClockRefines(fpu: Fpu, s: Sched, ops: seq<Op>, now: nat, capacity: nat)
    requires WellFormed(s) && AllWellTyped(ops) && NearRun(fpu, s, ops)
    requires NearEnough(Run(Unbounded, fpu, s, ops), Prepare(now, capacity))
    ensures var u, w := Run(Unbounded, fpu, s, ops), Run(Wrapping, fpu, Wrapped(s), WrappedOps(ops));
            w == Wrapped(u) &&
            PrepareOf(Wrapping, fpu, w, Wrap32(now), capacity).status == PrepareOf(Unbounded, fpu, u, now, capacity).status &&
            PrepareOf(Wrapping, fpu, w, Wrap32(now), capacity).output == PrepareOf(Unbounded, fpu, u, now, capacity).output
    decreases |ops|
  {
    hide PrepareOf, Wrap32, NearEnough;
    if ops == [] {
      StepAgrees(fpu, s, Prepare(now, capacity));
    } else {
      StepAgrees(fpu, s, ops[0]);
      assert WrappedOps(ops)[1..] == WrappedOps(ops[1..]);
      WrappingClockRefines(fpu, Step(Unbounded, fpu, s, ops[0]), ops[1..], now, capacity);
    }
  }

  // ---- the periodic schedule ----

  // The deadline an operation leaves if reports took no time and nobody asked for one: it moves
  // with the settings, and by one interval when a packet is asked for at or after it.
  function DeadlineAfter(clock: Clock, s: Sched, op: Op): int {
    match op
    case Begin(seconds, now) => Later(clock, now, (if ValidInterval(seconds) then seconds else DEFAULT_INTERVAL) as int * 1000)
    case ApplySettings(seconds, now) => if ValidInterval(seconds) then Later(clock, now, seconds as int * 1000) else s.nextAt
    case Prepare(now, capacity) =>
      if capacity >= PAYLOAD_LIMIT && Due(clock, now, s.nextAt) then Later(clock, now, s.interval as int * 1000) else s.nextAt
    case _ => s.nextAt
  }

  // The schedule is kept unless the deadline passes while a report is still being sent.
  predicate Punctual(clock: Clock, s: Sched, op: Op) {
    op.Prepare? && op.capacity >= PAYLOAD_LIMIT && Due(clock, op.now, s.nextAt) ==> !s.inProgress && !s.pending
  }

  // One operation: the deadline follows the schedule exactly when the operation is punctual. A
  // request for an immediate report does not touch it.
  lemma DeadlineFollowsSchedule(fpu: Fpu, s: Sched, op: Op)
    requires WellFormed(s) && WellTyped(op)
    ensures Step(Unbounded, fpu, s, op).nextAt == DeadlineAfter(Unbounded, s, op) <==> Punctual(Unbounded, s, op)
    ensures op == RequestImmediate ==> Step(Unbounded, fpu, s, op).nextAt == s.nextAt
  {
    hide FillFrom;
  }

  // The periodic schedule on its own: interval and deadline under the operations, with no report,
  // no sample and no immediate request in sight.
  function Schedule(interval: u16, nextAt: int, ops: seq<Op>): int
    decreases |ops|
  {
    if ops == [] then nextAt
    else match ops[0]
      case Begin(seconds, now) =>
        var i := if ValidInterval(seconds) then seconds else DEFAULT_INTERVAL;
        Schedule(i, now + i as int * 1000, ops[1..])
      case ApplySettings(seconds, now) =>
        if ValidInterval(seconds) then Schedule(seconds, now + seconds as int * 1000, ops[1..])
        else Schedule(interval, nextAt, ops[1..])
      case Prepare(now, capacity) =>
        Schedule(interval, if capacity >= PAYLOAD_LIMIT && now >= nextAt then now + interval as int * 1000 else nextAt, ops[1..])
      case _ => Schedule(interval, nextAt, ops[1..])
  }

  ghost predicate PunctualRun(fpu: Fpu, s: Sched, ops: seq<Op>)
    requires WellFormed(s) && AllWellTyped(ops)
    decreases |ops|
  {
    ops != [] ==> Punctual(Unbounded, s, ops[0]) && PunctualRun(fpu, Step(Unbounded, fpu, s, ops[0]), ops[1..])
  }

  // Over a whole punctual run, whatever is polled, sent, lost or asked for immediately, reports
  // keep the periodic schedule.
  lemma {:induction false} PunctualRunKeepsSchedule(fpu: Fpu, s: Sched, ops: seq<Op>)
    requires WellFormed(s) && AllWellTyped(ops) && PunctualRun(fpu, s, ops)
    ensures Run(Unbounded, fpu, s, ops).nextAt == Schedule(s.interval, s.nextAt, ops)
    decreases |ops|
  {
    hide FillFrom;
    if ops == [] {
    } else {
      PunctualRunKeepsSchedule(fpu, Step(Unbounded, fpu, s, ops[0]), ops[1..]);
    }
  }

  // The run is on the periodic schedule after each of its operations.
  ghost predicate OnSchedule(fpu: Fpu, s: Sched, ops: seq<Op>)
    requires WellFormed(s) && AllWellTyped(ops)
  {
    forall n :: 0 <= n <= |ops| ==> DeadlineOf(fpu, s, ops, n) == Schedule(s.interval, s.nextAt, ops[..n])
  }

  function DeadlineOf(fpu: Fpu, s: Sched, ops: seq<Op>, n: nat): int
    requires WellFormed(s) && AllWellTyped(ops) && n <= |ops|
  {
    Run(Unbounded, fpu, s, ops[..n]).nextAt
  }

  lemma {:induction false} PunctualPrefix(fpu: Fpu, s: Sched, a: seq<Op>, b: seq<Op>)
    requires WellFormed(s) && AllWellTyped(a) && AllWellTyped(b) && PunctualRun(fpu, s, a + b)
    ensures PunctualRun(fpu, s, a)
    decreases |a|
  {
    hide Step, Punctual;
    if a == [] {
    } else {
      assert (a + b)[1..] == a[1..] + b;
      PunctualPrefix(fpu, Step(Unbounded, fpu, s, a[0]), a[1..], b);
    }
  }

  function IntervalAfter(s: Sched, op: Op): u16 {
    match op
    case Begin(seconds, _) => if ValidInterval(seconds) then seconds else DEFAULT_INTERVAL
    case ApplySettings(seconds, _) => if ValidInterval(seconds) then seconds else s.interval
    case _ => s.interval
  }

  lemma ScheduleUnfolds(fpu: Fpu, s: Sched, op: Op, rest: seq<Op>)
    requires WellFormed(s) && WellTyped(op) && AllWellTyped(rest)
    ensures Schedule(s.interval, s.nextAt, [op] + rest) == Schedule(IntervalAfter(s, op), DeadlineAfter(Unbounded, s, op), rest)
    ensures Step(Unbounded, fpu, s, op).interval == IntervalAfter(s, op)
    ensures Run(Unbounded, fpu, s, [op] + rest) == Run(Unbounded, fpu, Step(Unbounded, fpu, s, op), rest)
  {
    hide FillFrom;
    assert ([op] + rest)[1..] == rest;
  }

  // The first operation of a run on schedule is punctual, and the rest is on schedule from there.
  lemma ScheduleStep(fpu: Fpu, s: Sched, ops: seq<Op>)
    requires WellFormed(s) && AllWellTyped(ops) && ops != [] && OnSchedule(fpu, s, ops)
    ensures Punctual(Unbounded, s, ops[0]) && OnSchedule(fpu, Step(Unbounded, fpu, s, ops[0]), ops[1..])
  {
    hide Punctual, Step, Schedule, Run, DeadlineAfter;
    var op, rest := ops[0], ops[1..];
    var after := Step(Unbounded, fpu, s, op);
    forall n | 0 <= n <= |rest|
      ensures DeadlineOf(fpu, after, rest, n) == Schedule(IntervalAfter(s, op), DeadlineAfter(Unbounded, s, op), rest[..n])
    {
      assert DeadlineOf(fpu, s, ops, n + 1) == Schedule(s.interval, s.nextAt, ops[..n + 1]);
      assert ops[..n + 1] == [op] + rest[..n];
      ScheduleUnfolds(fpu, s, op, rest[..n]);
    }
    assert DeadlineOf(fpu, after, rest, 0) == after.nextAt by { assert rest[..0] == []; RunOfNothing(fpu, after); }
    assert Schedule(IntervalAfter(s, op), DeadlineAfter(Unbounded, s, op), rest[..0]) == DeadlineAfter(Unbounded, s, op) by {
      ScheduleOfNothing(IntervalAfter(s, op), DeadlineAfter(Unbounded, s, op));
      assert rest[..0] == [];
    }
    DeadlineFollowsSchedule(fpu, s, op);
    ScheduleUnfolds(fpu, s, op, []);
  }

  lemma RunOfNothing(fpu: Fpu, s: Sched)
    requires WellFormed(s)
    ensures Run(Unbounded, fpu, s, []) == s
  {
  }

  lemma ScheduleOfNothing(interval: u16, nextAt: int)
    ensures Schedule(interval, nextAt, []) == nextAt
  {
  }

  // A run is on schedule after each operation if and only if every operation is punctual.
  lemma {:induction false} OnScheduleIsPunctual(fpu: Fpu, s: Sched, ops: seq<Op>)
    requires WellFormed(s) && AllWellTyped(ops)
    ensures OnSchedule(fpu, s, ops) <==> PunctualRun(fpu, s, ops)
    decreases |ops|
  {
    hide Step, Punctual, Schedule, Run;
    if PunctualRun(fpu, s, ops) {
      forall n | 0 <= n <= |ops|
        ensures DeadlineOf(fpu, s, ops, n) == Schedule(s.interval, s.nextAt, ops[..n])
      {
        assert ops == ops[..n] + ops[n..];
        PunctualPrefix(fpu, s, ops[..n], ops[n..]);
        PunctualRunKeepsSchedule(fpu, s, ops[..n]);
      }
    }
    if ops != [] && OnSchedule(fpu, s, ops) {
      ScheduleStep(fpu, s, ops);
      OnScheduleIsPunctual(fpu, Step(Unbounded, fpu, s, ops[0]), ops[1..]);
    }
  }

  // The same operations without the requests for immediate reports.
  function Without(ops: seq<Op>): (r: seq<Op>)
    ensures AllWellTyped(ops) ==> AllWellTyped(r)
    decreases |ops|
  {
    if ops == [] then []
    else if ops[0] == RequestImmediate then Without(ops[1..])
    else [ops[0]] + Without(ops[1..])
  }

  lemma {:induction false} WithoutJoins(a: seq<Op>, b: seq<Op>)
    ensures Without(a + b) == Without(a) + Without(b)
    decreases |a|
  {
    if a == [] {
      assert a + b == b;
    } else {
      assert (a + b)[1..] == a[1..] + b;
      WithoutJoins(a[1..], b);
    }
  }

  lemma {:induction false} ScheduleIgnoresRequests(interval: u16, nextAt: int, ops: seq<Op>)
    ensures Schedule(interval, nextAt, Without(ops)) == Schedule(interval, nextAt, ops)
    decreases |ops|
  {
    if ops == [] {
    } else {
      var rest := Without(ops[1..]);
      assert ([ops[0]] + rest)[1..] == rest;
      match ops[0] {
        case Begin(seconds, now) =>
          var i := if ValidInterval(seconds) then seconds else DEFAULT_INTERVAL;
          ScheduleIgnoresRequests(i, now + i as int * 1000, ops[1..]);
        case ApplySettings(seconds, now) =>
          if ValidInterval(seconds) {
            ScheduleIgnoresRequests(seconds, now + seconds as int * 1000, ops[1..]);
          } else {
            ScheduleIgnoresRequests(interval, nextAt, ops[1..]);
          }
        case Prepare(now, capacity) =>
          ScheduleIgnoresRequests(
            interval, if capacity >= PAYLOAD_LIMIT && now >= nextAt then now + interval as int * 1000 else nextAt, ops[1..]);
        case _ => ScheduleIgnoresRequests(interval, nextAt, ops[1..]);
      }
    }
  }

  // Main result, over whole runs with and without the requests. Where the same operations without
  // the requests are punctual, requests for immediate reports never shift the periodic schedule, at
  // any point of the run, if and only if no deadline passes while a report is still being sent.
  lemma RequestsKeepScheduleExactlyWhenPunctual(fpu: Fpu, s: Sched, ops: seq<Op>)
    requires WellFormed(s) && AllWellTyped(ops) && PunctualRun(fpu, s, Without(ops))
    ensures (forall n :: 0 <= n <= |ops| ==> DeadlineOf(fpu, s, ops, n) == Run(Unbounded, fpu, s, Without(ops[..n])).nextAt)
            <==> PunctualRun(fpu, s, ops)
  {
    hide PunctualRun, Schedule, Run, DeadlineOf;
    forall n | 0 <= n <= |ops|
      ensures Run(Unbounded, fpu, s, Without(ops[..n])).nextAt == Schedule(s.interval, s.nextAt, ops[..n])
    {
      assert ops == ops[..n] + ops[n..];
      WithoutJoins(ops[..n], ops[n..]);
      PunctualPrefix(fpu, s, Without(ops[..n]), Without(ops[n..]));
      PunctualRunKeepsSchedule(fpu, s, Without(ops[..n]));
      ScheduleIgnoresRequests(s.interval, s.nextAt, ops[..n]);
    }
    OnScheduleIsPunctual(fpu, s, ops);
  }

  // One slot with a failed poll, so that there is something to report.
  function OneFailure(): Snapshot {
    seq(32, i => if i == 0 then Present(ChannelConfig(0, 1, 0, 0, 1, false, []), false, 0, [Unsigned(0), Unsigned(0)]) else Absent)
  }

  function FreshSched(immediate: bool): Sched {
    Sched(60, OneFailure(), seq(32, _ => Absent), 60000, 0, 0, 0, false, false, immediate, [])
  }

  // That immediate requests never shift the periodic schedule is not true without the condition:
  // an immediate report still unsent at the deadline delays the periodic one, and the deadline
  // after it. Same operations, with and without the request.
  lemma ImmediateReportCanShiftSchedule(fpu: Fpu)
    ensures var ops := [Prepare(59999, 51), Prepare(60000, 51), Sent(61000), Prepare(61000, 51)];
            Run(Unbounded, fpu, FreshSched(false), ops).nextAt == 120000 &&
            Run(Unbounded, fpu, FreshSched(true), ops).nextAt == 121000
  {
    hide FillFrom, Encoding;
    var report := OneFailure();
    OneFailureFills(fpu);
    var plain0, asked0 := FreshSched(false), FreshSched(true);
    var plain1, asked1 := Step(Unbounded, fpu, plain0, Prepare(59999, 51)), Step(Unbounded, fpu, asked0, Prepare(59999, 51));
    var plain2, asked2 := Step(Unbounded, fpu, plain1, Prepare(60000, 51)), Step(Unbounded, fpu, asked1, Prepare(60000, 51));
    var plain3, asked3 := Step(Unbounded, fpu, plain2, Sent(61000)), Step(Unbounded, fpu, asked2, Sent(61000));
    var plain4, asked4 := Step(Unbounded, fpu, plain3, Prepare(61000, 51)), Step(Unbounded, fpu, asked3, Prepare(61000, 51));
    assert plain1.nextAt == 60000 && plain2.nextAt == 120000 && plain4.nextAt == 120000;
    assert asked2.nextAt == 60000 && asked3.nextAt == 60000 && asked4.nextAt == 121000;
    FourSteps(fpu, plain0, Prepare(59999, 51), Prepare(60000, 51), Sent(61000), Prepare(61000, 51));
    FourSteps(fpu, asked0, Prepare(59999, 51), Prepare(60000, 51), Sent(61000), Prepare(61000, 51));
  }

  lemma OneFailureFills(fpu: Fpu)
    ensures FillFrom(fpu, OneFailure(), 0, []).Filled?
    ensures FillFrom(fpu, OneFailure(), 0, []).payload != [] && FillFrom(fpu, OneFailure(), 0, []).next == 32
  {
    hide FillFrom;
    var report := OneFailure();
    assert Encodable(fpu, report);
    FirstPacket(fpu, report, 0);
    EncodingSize(fpu, report[0]);
    assert RangeBytes(fpu, report, 0, 32) == SlotBytes(fpu, report, 0) + RangeBytes(fpu, report, 1, 32);
    var f := FillFrom(fpu, report, 0, []);
    FillHoldsWholeSlots(fpu, report, 0, []);
  }

  lemma FourSteps(fpu: Fpu, s: Sched, a: Op, b: Op, c: Op, d: Op)
    requires WellFormed(s) && WellTyped(a) && WellTyped(b) && WellTyped(c) && WellTyped(d)
    ensures AllWellTyped([a, b, c, d])
    ensures Run(Unbounded, fpu, s, [a, b, c, d])
         == Step(Unbounded, fpu, Step(Unbounded, fpu, Step(Unbounded, fpu, Step(Unbounded, fpu, s, a), b), c), d)
  {
    hide Step;
    var s1 := Step(Unbounded, fpu, s, a);
    var s2 := Step(Unbounded, fpu, s1, b);
    var s3 := Step(Unbounded, fpu, s2, c);
    assert [a, b, c, d][1..] == [b, c, d] && [b, c, d][1..] == [c, d] && [c, d][1..] == [d] && [d][1..] == [];
    assert Run(Unbounded, fpu, s3, [d]) == Step(Unbounded, fpu, s3, d);
    assert Run(Unbounded, fpu, s2, [c, d]) == Run(Unbounded, fpu, s3, [d]);
    assert Run(Unbounded, fpu, s1, [b, c, d]) == Run(Unbounded, fpu, s2, [c, d]);
  }

  // ---- from the fieldbus to the receiver ----

  // A sample as the fieldbus leaves it: a failed poll, or a complete reading of values from the wire.
  ghost predicate Readable(fpu: Fpu, s: Sample) {
    s.Present? ==>
      |s.values| == 2 && ValidChannelConfig(s.channel) &&
      (s.success ==> s.valueCount == s.channel.quantity && forall k :: 0 <= k < s.channel.quantity ==> FromWire(fpu, s.channel, s.values[k]))
  }

  ghost predicate AllReadable(fpu: Fpu, samples: Snapshot) {
    forall k :: 0 <= k < 32 ==> Readable(fpu, samples[k])
  }

  // What a receiver should learn about a slot, and about all slots from one on.
  function SlotReports(fpu: Fpu, s: Sample): seq<Report>
    requires s.Present? && s.success ==> ValidChannelConfig(s.channel) && |s.values| == 2
  {
    if s.Absent? then []
    else if s.success then ReportsFrom(s.channel, CarriedAll(fpu, s.channel, s.values), 0)
    else [CollectionFailure(s.channel.slot)]
  }

  ghost function SnapshotReports(fpu: Fpu, samples: Snapshot, from: nat): seq<Report>
    requires from <= 32 && AllReadable(fpu, samples)
    decreases 32 - from
  {
    if from == 32 then [] else SlotReports(fpu, samples[from]) + SnapshotReports(fpu, samples, from + 1)
  }

  // The radio carries the values of a sample whole.
  predicate Unaltered(fpu: Fpu, s: Sample) {
    s.Present? && s.success && s.channel.quantity <= |s.values| ==>
      forall k :: 0 <= k < s.channel.quantity ==> Carried(fpu, s.channel, s.values[k]) == s.values[k]
  }

  lemma ReadableIsUnaltered(fpu: Fpu, s: Sample)
    requires Readable(fpu, s) && (s.Present? && Float32(s.channel) ==> WideningSettles(fpu))
    ensures Unaltered(fpu, s)
  {
    hide FromWire, Carried, WideningSettles, Float32;
    if s.Present? && s.success {
      forall k | 0 <= k < s.channel.quantity
        ensures Carried(fpu, s.channel, s.values[k]) == s.values[k]
      {
        WireValueIsCarried(fpu, s.channel, s.values[k]);
      }
    }
  }

  lemma ReadableSlotConveys(fpu: Fpu, samples: Snapshot, slot: nat)
    requires slot < 32 && AllReadable(fpu, samples)
    ensures samples[slot].Present? ==> Encoding(fpu, samples[slot]).Bytes?
    ensures Conveys(fpu, SlotBytes(fpu, samples, slot), SlotReports(fpu, samples[slot]))
  {
    hide Conveys, FitsField;
    var s := samples[slot];
    assert Readable(fpu, s);
    if s.Absent? {
      ConveysNothing(fpu);
    } else if s.success {
      ReadingReachesRadio(fpu, s.channel, s.values);
    } else {
      FailureIsReceived(fpu, s.channel);
    }
  }

  lemma {:induction false} SnapshotConveys(fpu: Fpu, samples: Snapshot, from: nat)
    requires from <= 32 && AllReadable(fpu, samples)
    ensures Conveys(fpu, RangeBytes(fpu, samples, from, 32), SnapshotReports(fpu, samples, from))
    decreases 32 - from
  {
    hide Conveys, SlotReports, SlotBytes;
    if from == 32 {
      ConveysNothing(fpu);
    } else {
      ReadableSlotConveys(fpu, samples, from);
      SnapshotConveys(fpu, samples, from + 1);
      ConveysBoth(fpu, SlotBytes(fpu, samples, from), SlotReports(fpu, samples[from]),
                  RangeBytes(fpu, samples, from + 1, 32), SnapshotReports(fpu, samples, from + 1));
    }
  }

  // A poll result as the fieldbus master delivers it: a failure, or the values that the decoder
  // accepted from some response frame.
  ghost predicate FromFieldbus(fpu: Fpu, op: Op) {
    op.RecordPoll? && op.success ==>
      op.values.Some? && |op.values.value| == 2 && op.count == op.channel.quantity <= 2 &&
      exists frame :: ReadResponse(fpu, op.channel, frame) == Values(op.values.value[..op.channel.quantity])
  }

  lemma FieldbusPollIsReadable(fpu: Fpu, s: Sched, op: Op)
    requires WellFormed(s) && op.RecordPoll? && WellTyped(op) && FromFieldbus(fpu, op)
    requires AllReadable(fpu, s.samples)
    ensures AllReadable(fpu, Step(Unbounded, fpu, s, op).samples)
  {
    hide ReadResponse, FromWire;
    if op.success && ValidChannelConfig(op.channel) {
      var c, values := op.channel, op.values.value;
      var frame :| ReadResponse(fpu, c, frame) == Values(values[..c.quantity]);
      var sample := Recorded(s.samples[c.slot], c, true, op.values, op.count);
      forall k | 0 <= k < c.quantity
        ensures FromWire(fpu, c, sample.values[k])
      {
        ResponseIsFromWire(fpu, c, frame, k);
        assert values[..c.quantity][k] == values[k] == sample.values[k];
      }
      assert Readable(fpu, sample);
    }
  }

  ghost predicate ReadableTrack(fpu: Fpu, t: Track) {
    AllReadable(fpu, t.sched.samples) && AllReadable(fpu, t.sched.report) && AllReadable(fpu, t.snapshot) &&
    forall k :: 0 <= k < |t.completed| ==> AllReadable(fpu, t.completed[k].snapshot)
  }

  lemma FollowKeepsReadable(clock: Clock, fpu: Fpu, t: Track, op: Op)
    requires WellFormed(t.sched) && WellTyped(op) && ReadableTrack(fpu, t) && FromFieldbus(fpu, op)
    ensures ReadableTrack(fpu, Follow(clock, fpu, t, op))
  {
    hide FillFrom, Readable, FromFieldbus, Due, FromWire, Recorded, Encoding;
    if op.RecordPoll? {
      FieldbusPollIsReadable(fpu, t.sched, op);
    } else if op.ClearSlot? {
      assert Readable(fpu, Absent) by { AbsentIsReadable(fpu); }
    }
  }

  lemma AbsentIsReadable(fpu: Fpu)
    ensures Readable(fpu, Absent)
  {
  }

  lemma {:induction false} RunKeepsReadable(clock: Clock, fpu: Fpu, t: Track, ops: seq<Op>)
    requires WellFormed(t.sched) && AllWellTyped(ops) && ReadableTrack(fpu, t)
    requires forall k :: 0 <= k < |ops| ==> FromFieldbus(fpu, ops[k])
    ensures ReadableTrack(fpu, FollowAll(clock, fpu, t, ops))
    decreases |ops|
  {
    hide Follow, ReadableTrack, FromFieldbus;
    if ops == [] {
    } else {
      FollowKeepsReadable(clock, fpu, t, ops[0]);
      RunKeepsReadable(clock, fpu, Follow(clock, fpu, t, ops[0]), ops[1..]);
    }
  }

  lemma ReadableIsEncodable(fpu: Fpu, samples: Snapshot)
    requires AllReadable(fpu, samples)
    ensures Encodable(fpu, samples)
  {
    hide Encoding, Readable;
    forall k | 0 <= k < 32
      ensures samples[k].Present? ==> Encoding(fpu, samples[k]).Bytes?
    {
      ReadableSlotConveys(fpu, samples, k);
    }
  }

  // Main result, end to end and on any processor: when every successful poll is a response the
  // codec accepted, the scheduler never reports an encoding failure or an overflow, and the packets
  // of every completed report, put together, tell a receiver exactly what the fields carry of the
  // snapshot: every slot's values or failure, in slot order, each once. Those are the values
  // themselves, for float32 channels if widening settles.
  lemma FieldbusToReceiver(clock: Clock, fpu: Fpu, s: Sched, ops: seq<Op>, now: nat, capacity: nat)
    requires IdleState(s) && AllReadable(fpu, s.samples) && AllReadable(fpu, s.report)
    requires AllWellTyped(ops) && forall i :: 0 <= i < |ops| ==> Benign(ops[i]) && FromFieldbus(fpu, ops[i])
    ensures var t := FollowAll(clock, fpu, Track(s, s.samples, [], []), ops);
            (capacity >= PAYLOAD_LIMIT ==>
               PrepareOf(clock, fpu, t.sched, now, capacity).status in {NotDue, PacketReady, EmptyReport}) &&
            forall k :: 0 <= k < |t.completed| ==>
              AllReadable(fpu, t.completed[k].snapshot) &&
              Receive(fpu, Concat(t.completed[k].packets)) == Some(SnapshotReports(fpu, t.completed[k].snapshot, 0)) &&
              forall slot :: 0 <= slot < 32 ==>
                var sample := t.completed[k].snapshot[slot];
                (sample.Present? && Float32(sample.channel) ==> WideningSettles(fpu)) ==> Unaltered(fpu, sample)
  {
    hide FillFrom, Packets, Follow, RangeBytes, AllReadable, Receive, Conveys, FromFieldbus, Due, Unaltered, WideningSettles, Float32;
    var t0 := Track(s, s.samples, [], []);
    RunKeepsCourse(clock, fpu, t0, ops);
    RunKeepsReadable(clock, fpu, t0, ops);
    var t := FollowAll(clock, fpu, t0, ops);
    var r := Started(clock, t.sched, now);
    ReadableIsEncodable(fpu, r.report);
    FillNeverFails(fpu, r.report, r.cursor, []);
    forall k | 0 <= k < |t.completed|
      ensures AllReadable(fpu, t.completed[k].snapshot)
      ensures Receive(fpu, Concat(t.completed[k].packets)) == Some(SnapshotReports(fpu, t.completed[k].snapshot, 0))
      ensures forall slot :: 0 <= slot < 32 ==>
                var sample := t.completed[k].snapshot[slot];
                (sample.Present? && Float32(sample.channel) ==> WideningSettles(fpu)) ==> Unaltered(fpu, sample)
    {
      var snapshot := t.completed[k].snapshot;
      ReadableIsEncodable(fpu, snapshot);
      PacketsConcatenate(fpu, snapshot, 0);
      SnapshotConveys(fpu, snapshot, 0);
      ConveysAlone(fpu, RangeBytes(fpu, snapshot, 0, 32), SnapshotReports(fpu, snapshot, 0));
      SnapshotIsUnaltered(fpu, snapshot);
    }
  }

  lemma SnapshotIsUnaltered(fpu: Fpu, samples: Snapshot)
    requires AllReadable(fpu, samples)
    ensures forall slot :: 0 <= slot < 32 ==>
              (samples[slot].Present? && Float32(samples[slot].channel) ==> WideningSettles(fpu)) ==> Unaltered(fpu, samples[slot])
  {
    hide Readable, Unaltered, WideningSettles, Float32;
    forall slot | 0 <= slot < 32 && (samples[slot].Present? && Float32(samples[slot].channel) ==> WideningSettles(fpu))
      ensures Unaltered(fpu, samples[slot])
    {
      assert Readable(fpu, samples[slot]);
      ReadableIsUnaltered(fpu, samples[slot]);
    }
  }
}
