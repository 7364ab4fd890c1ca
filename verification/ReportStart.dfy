// When reports start, told from what the caller did and saw: no field of the scheduler says here
// whether a report was asked for or is under way.
module ReportStart {
  import opened Words
  import opened Channel
  import opened Uplink
  import opened ReportPacking
  import opened ReportScheduler
  import opened ReportStream

  function After(clock: Clock, fpu: Fpu, s: Sched, ops: seq<Op>, k: nat): (r: Sched)
    requires WellFormed(s) && AllWellTyped(ops) && k <= |ops|
    ensures WellFormed(r)
  {
    Run(clock, fpu, s, ops[..k])
  }

  lemma {:induction false} RunOneMore(clock: Clock, fpu: Fpu, s: Sched, ops: seq<Op>, op: Op)
    requires WellFormed(s) && AllWellTyped(ops) && WellTyped(op)
    ensures Run(clock, fpu, s, ops + [op]) == Step(clock, fpu, Run(clock, fpu, s, ops), op)
    decreases |ops|
  {
    hide Step;
    if ops == [] {
      assert Run(clock, fpu, Step(clock, fpu, s, op), []) == Step(clock, fpu, s, op);
      assert ([] + [op])[1..] == [];
    } else {
      assert (ops + [op])[1..] == ops[1..] + [op];
      RunOneMore(clock, fpu, Step(clock, fpu, s, ops[0]), ops[1..], op);
    }
  }

  // The last operation of a run, and the states around it.
  lemma LastStep(clock: Clock, fpu: Fpu, s: Sched, ops: seq<Op>)
    requires WellFormed(s) && AllWellTyped(ops) && ops != []
    ensures var n := |ops| - 1;
            After(clock, fpu, s, ops, n) == Run(clock, fpu, s, ops[..n]) &&
            Run(clock, fpu, s, ops) == Step(clock, fpu, After(clock, fpu, s, ops, n), ops[n])
  {
    hide Step, Run;
    var n := |ops| - 1;
    assert ops == ops[..n] + [ops[n]];
    RunOneMore(clock, fpu, s, ops[..n], ops[n]);
  }

  lemma EarlierStates(clock: Clock, fpu: Fpu, s: Sched, ops: seq<Op>, n: nat, k: nat)
    requires WellFormed(s) && AllWellTyped(ops) && k <= n <= |ops|
    ensures After(clock, fpu, s, ops[..n], k) == After(clock, fpu, s, ops, k)
  {
    assert ops[..n][..k] == ops[..k];
  }

  // ---- what the caller sees of a report's start and end ----

  // Asked for a packet while no report is under way, the scheduler begins one: it answers
  // something else than that nothing is due.
  predicate Starts(clock: Clock, fpu: Fpu, s: Sched, op: Op): (starts: bool)
    requires WellFormed(s)
    ensures starts ==> op.Prepare?
  {
    op.Prepare? && op.capacity >= 51 && !s.inProgress && !s.pending &&
    PrepareOf(clock, fpu, s, op.now, op.capacity).status != NotDue
  }

  // It begins one that is not already over for want of anything to report.
  predicate Opens(clock: Clock, fpu: Fpu, s: Sched, op: Op)
    requires WellFormed(s)
  {
    Starts(clock, fpu, s, op) && PrepareOf(clock, fpu, s, op.now, op.capacity).status != EmptyReport
  }

  // A restart, an abort, the confirmation of the packet with the last slot, or a rest of the report
  // in which every slot was cleared.
  predicate Ends(clock: Clock, fpu: Fpu, s: Sched, op: Op)
    requires WellFormed(s)
  {
    op.Begin? || op.Abort? || (op.Sent? && s.pending && s.pendingNext >= 32) ||
    (op.Prepare? && PrepareOf(clock, fpu, s, op.now, op.capacity).status == EmptyReport)
  }

  // Some request came that no start and no restart has used up.
  ghost predicate Asked(clock: Clock, fpu: Fpu, s: Sched, ops: seq<Op>)
    requires WellFormed(s) && AllWellTyped(ops)
  {
    exists k :: 0 <= k < |ops| && ops[k] == RequestImmediate && Unused(clock, fpu, s, ops, k)
  }

  ghost predicate Unused(clock: Clock, fpu: Fpu, s: Sched, ops: seq<Op>, k: nat)
    requires WellFormed(s) && AllWellTyped(ops)
  {
    forall j :: k < j < |ops| ==> !ops[j].Begin? && !Starts(clock, fpu, After(clock, fpu, s, ops, j), ops[j])
  }

  // Some report was opened that nothing has ended.
  ghost predicate Underway(clock: Clock, fpu: Fpu, s: Sched, ops: seq<Op>)
    requires WellFormed(s) && AllWellTyped(ops)
  {
    exists k :: 0 <= k < |ops| && Opens(clock, fpu, After(clock, fpu, s, ops, k), ops[k]) && Open(clock, fpu, s, ops, k)
  }

  ghost predicate Open(clock: Clock, fpu: Fpu, s: Sched, ops: seq<Op>, k: nat)
    requires WellFormed(s) && AllWellTyped(ops)
  {
    forall j :: k < j < |ops| ==> !Ends(clock, fpu, After(clock, fpu, s, ops, j), ops[j])
  }

  lemma AskedGoesOn(clock: Clock, fpu: Fpu, s: Sched, ops: seq<Op>)
    requires WellFormed(s) && AllWellTyped(ops) && ops != []
    ensures var n := |ops| - 1;
            Asked(clock, fpu, s, ops) <==>
              ops[n] == RequestImmediate ||
              (Asked(clock, fpu, s, ops[..n]) && !ops[n].Begin? && !Starts(clock, fpu, After(clock, fpu, s, ops, n), ops[n]))
  {
    hide After, Starts;
    var n := |ops| - 1;
    forall k | 0 <= k < n
      ensures Unused(clock, fpu, s, ops, k) <==>
              Unused(clock, fpu, s, ops[..n], k) && !ops[n].Begin? && !Starts(clock, fpu, After(clock, fpu, s, ops, n), ops[n])
    {
      forall j | 0 <= j < n
        ensures After(clock, fpu, s, ops[..n], j) == After(clock, fpu, s, ops, j)
      {
        EarlierStates(clock, fpu, s, ops, n, j);
      }
    }
    if ops[n] == RequestImmediate { assert Unused(clock, fpu, s, ops, n); }
    if Asked(clock, fpu, s, ops[..n]) {
      var k :| 0 <= k < n && ops[..n][k] == RequestImmediate && Unused(clock, fpu, s, ops[..n], k);
      assert ops[k] == RequestImmediate;
    }
    if Asked(clock, fpu, s, ops) && ops[n] != RequestImmediate {
      var k :| 0 <= k < |ops| && ops[k] == RequestImmediate && Unused(clock, fpu, s, ops, k);
      assert ops[..n][k] == RequestImmediate;
    }
  }

  lemma OpenGoesOn(clock: Clock, fpu: Fpu, s: Sched, ops: seq<Op>, k: nat)
    requires WellFormed(s) && AllWellTyped(ops) && k + 1 < |ops|
    ensures var n := |ops| - 1;
            (Open(clock, fpu, s, ops, k) <==>
               Open(clock, fpu, s, ops[..n], k) && !Ends(clock, fpu, After(clock, fpu, s, ops, n), ops[n])) &&
            After(clock, fpu, s, ops[..n], k) == After(clock, fpu, s, ops, k)
  {
    hide After, Ends;
    var n := |ops| - 1;
    forall j | 0 <= j < n
      ensures After(clock, fpu, s, ops[..n], j) == After(clock, fpu, s, ops, j)
    {
      EarlierStates(clock, fpu, s, ops, n, j);
    }
  }

  lemma UnderwayGoesOn(clock: Clock, fpu: Fpu, s: Sched, ops: seq<Op>)
    requires WellFormed(s) && AllWellTyped(ops) && ops != []
    ensures var n := |ops| - 1;
            Underway(clock, fpu, s, ops) <==>
              Opens(clock, fpu, After(clock, fpu, s, ops, n), ops[n]) ||
              (Underway(clock, fpu, s, ops[..n]) && !Ends(clock, fpu, After(clock, fpu, s, ops, n), ops[n]))
  {
    var n := |ops| - 1;
    if Opens(clock, fpu, After(clock, fpu, s, ops, n), ops[n]) {
      hide After, Opens, Ends;
      assert Open(clock, fpu, s, ops, n);
    } else {
      hide After, Opens, Ends, Open, Underway;
      if Underway(clock, fpu, s, ops[..n]) && !Ends(clock, fpu, After(clock, fpu, s, ops, n), ops[n]) {
        StaysUnderway(clock, fpu, s, ops);
      }
      if Underway(clock, fpu, s, ops) { WasUnderway(clock, fpu, s, ops); }
    }
  }

  lemma StaysUnderway(clock: Clock, fpu: Fpu, s: Sched, ops: seq<Op>)
    requires WellFormed(s) && AllWellTyped(ops) && ops != []
    requires Underway(clock, fpu, s, ops[..|ops| - 1])
    requires !Ends(clock, fpu, After(clock, fpu, s, ops, |ops| - 1), ops[|ops| - 1])
    ensures Underway(clock, fpu, s, ops)
  {
    hide After, Opens, Ends, Open;
    var before := ops[..|ops| - 1];
    var k :| 0 <= k < |before| && Opens(clock, fpu, After(clock, fpu, s, before, k), before[k]) && Open(clock, fpu, s, before, k);
    OpenGoesOn(clock, fpu, s, ops, k);
    assert before[k] == ops[k];
  }

  lemma WasUnderway(clock: Clock, fpu: Fpu, s: Sched, ops: seq<Op>)
    requires WellFormed(s) && AllWellTyped(ops) && ops != [] && Underway(clock, fpu, s, ops)
    requires !Opens(clock, fpu, After(clock, fpu, s, ops, |ops| - 1), ops[|ops| - 1])
    ensures Underway(clock, fpu, s, ops[..|ops| - 1])
    ensures !Ends(clock, fpu, After(clock, fpu, s, ops, |ops| - 1), ops[|ops| - 1])
  {
    hide After, Opens, Ends, Open;
    var before := ops[..|ops| - 1];
    var k :| 0 <= k < |ops| && Opens(clock, fpu, After(clock, fpu, s, ops, k), ops[k]) && Open(clock, fpu, s, ops, k);
    OpenGoesOn(clock, fpu, s, ops, k);
    assert before[k] == ops[k];
  }

  lemma StepUsesRequest(clock: Clock, fpu: Fpu, s: Sched, op: Op)
    requires WellFormed(s) && WellTyped(op)
    ensures Step(clock, fpu, s, op).immediate <==>
            op == RequestImmediate || (s.immediate && !op.Begin? && !Starts(clock, fpu, s, op))
  {
    hide FillFrom, Due;
  }

  lemma StepOpensAndEnds(clock: Clock, fpu: Fpu, s: Sched, op: Op)
    requires WellFormed(s) && WellTyped(op) && (s.pending ==> s.inProgress)
    ensures var r := Step(clock, fpu, s, op);
            (r.pending ==> r.inProgress) &&
            (r.inProgress <==> Opens(clock, fpu, s, op) || (s.inProgress && !Ends(clock, fpu, s, op)))
  {
    hide FillFrom, Due;
  }

  // The requests and the reports under way, over any run from an idle scheduler nobody asked.
  lemma {:induction false} HistoryTells(clock: Clock, fpu: Fpu, s: Sched, ops: seq<Op>)
    requires IdleState(s) && !s.immediate && AllWellTyped(ops)
    ensures var r := Run(clock, fpu, s, ops);
            (r.immediate <==> Asked(clock, fpu, s, ops)) &&
            (r.inProgress <==> Underway(clock, fpu, s, ops)) && (r.pending ==> r.inProgress)
    decreases |ops|
  {
    hide Asked, Underway, Step, Starts, Opens, Ends;
    if ops == [] {
      NothingHappened(clock, fpu, s);
    } else {
      var n := |ops| - 1;
      HistoryTells(clock, fpu, s, ops[..n]);
      LastStep(clock, fpu, s, ops);
      AskedGoesOn(clock, fpu, s, ops);
      UnderwayGoesOn(clock, fpu, s, ops);
      hide Run;
      StepUsesRequest(clock, fpu, After(clock, fpu, s, ops, n), ops[n]);
      StepOpensAndEnds(clock, fpu, After(clock, fpu, s, ops, n), ops[n]);
    }
  }

  lemma NothingHappened(clock: Clock, fpu: Fpu, s: Sched)
    requires WellFormed(s)
    ensures !Asked(clock, fpu, s, []) && !Underway(clock, fpu, s, [])
  {
  }

  // Main result: over any run, a call starts a report if and only if none is under way, the buffer
  // has room, and the deadline is due or a request came since the last start or restart.
  lemma ReportStartsExactlyWhen(clock: Clock, fpu: Fpu, s: Sched, ops: seq<Op>, now: nat, capacity: nat)
    requires IdleState(s) && !s.immediate && AllWellTyped(ops)
    ensures var r := Run(clock, fpu, s, ops);
            Starts(clock, fpu, r, Prepare(now, capacity)) <==>
              capacity >= 51 && !Underway(clock, fpu, s, ops) && (Due(clock, now, r.nextAt) || Asked(clock, fpu, s, ops))
  {
    hide Asked, Underway, FillFrom, Due, Run;
    HistoryTells(clock, fpu, s, ops);
  }

  // ---- how many reports ----

  function StartCount(clock: Clock, fpu: Fpu, s: Sched, ops: seq<Op>): nat
    requires WellFormed(s) && AllWellTyped(ops)
    decreases |ops|
  {
    if ops == [] then 0
    else (if Starts(clock, fpu, s, ops[0]) then 1 else 0) + StartCount(clock, fpu, Step(clock, fpu, s, ops[0]), ops[1..])
  }

  function RequestCount(ops: seq<Op>): nat
    decreases |ops|
  {
    if ops == [] then 0 else (if ops[0] == RequestImmediate then 1 else 0) + RequestCount(ops[1..])
  }

  // The calls that find the deadline due while no report is under way.
  function DueCount(clock: Clock, fpu: Fpu, s: Sched, ops: seq<Op>): nat
    requires WellFormed(s) && AllWellTyped(ops)
    decreases |ops|
  {
    if ops == [] then 0
    else (if Starts(clock, fpu, s, ops[0]) && Due(clock, ops[0].now, s.nextAt) then 1 else 0)
         + DueCount(clock, fpu, Step(clock, fpu, s, ops[0]), ops[1..])
  }

  lemma StepSpends(clock: Clock, fpu: Fpu, s: Sched, op: Op)
    requires WellFormed(s) && WellTyped(op)
    ensures Starts(clock, fpu, s, op) && !Due(clock, op.now, s.nextAt) ==> s.immediate && !Step(clock, fpu, s, op).immediate
    ensures op != RequestImmediate && Step(clock, fpu, s, op).immediate ==> s.immediate
  {
    hide FillFrom, Due;
  }

  // Each request and each due deadline is good for one report at most.
  lemma {:induction false} ReportsAreAskedFor(clock: Clock, fpu: Fpu, s: Sched, ops: seq<Op>)
    requires WellFormed(s) && AllWellTyped(ops)
    ensures StartCount(clock, fpu, s, ops)
         <= (if s.immediate then 1 else 0) + RequestCount(ops) + DueCount(clock, fpu, s, ops)
    decreases |ops|
  {
    hide Step, Starts, Due;
    if ops == [] {
    } else {
      StepSpends(clock, fpu, s, ops[0]);
      ReportsAreAskedFor(clock, fpu, Step(clock, fpu, s, ops[0]), ops[1..]);
    }
  }

  predicate KeepsInterval(op: Op) {
    !op.Begin? && !op.ApplySettings?
  }

  lemma StepMovesDeadline(fpu: Fpu, s: Sched, op: Op)
    requires WellFormed(s) && WellTyped(op) && KeepsInterval(op)
    ensures var r := Step(Unbounded, fpu, s, op);
            r.interval == s.interval &&
            if Starts(Unbounded, fpu, s, op) && op.now >= s.nextAt
            then r.nextAt == op.now + 1000 * s.interval else r.nextAt == s.nextAt
  {
    hide FillFrom;
  }

  lemma {:induction false} DeadlinesAreApart(fpu: Fpu, s: Sched, ops: seq<Op>, latest: int)
    requires WellFormed(s) && AllWellTyped(ops) && forall k :: 0 <= k < |ops| ==> KeepsInterval(ops[k])
    requires forall k :: 0 <= k < |ops| ==> ops[k].Prepare? ==> ops[k].now <= latest
    ensures DueCount(Unbounded, fpu, s, ops) == 0 ||
            s.nextAt + 1000 * s.interval * (DueCount(Unbounded, fpu, s, ops) - 1) <= latest
    decreases |ops|
  {
    hide Step, Starts;
    if ops == [] {
    } else {
      var r := Step(Unbounded, fpu, s, ops[0]);
      StepMovesDeadline(fpu, s, ops[0]);
      DeadlinesAreApart(fpu, r, ops[1..], latest);
      var m := DueCount(Unbounded, fpu, r, ops[1..]);
      if Starts(Unbounded, fpu, s, ops[0]) && ops[0].now >= s.nextAt && m > 0 {
        OneMore(1000 * s.interval, m);
      }
    }
  }

  // Main result: while the settings stay, the reports nobody asked for are one interval apart. Up to
  // a given time there are no more of them than deadlines on a fixed grid.
  lemma ReportRateIsBounded(fpu: Fpu, s: Sched, ops: seq<Op>, latest: int)
    requires WellFormed(s) && !s.immediate && AllWellTyped(ops) && forall k :: 0 <= k < |ops| ==> KeepsInterval(ops[k])
    requires forall k :: 0 <= k < |ops| ==> ops[k].Prepare? ==> ops[k].now <= latest
    ensures var unasked := StartCount(Unbounded, fpu, s, ops) - RequestCount(ops);
            unasked <= 0 || s.nextAt + 1000 * s.interval * (unasked - 1) <= latest
  {
    ReportsAreAskedFor(Unbounded, fpu, s, ops);
    DeadlinesAreApart(fpu, s, ops, latest);
    var unasked, m := StartCount(Unbounded, fpu, s, ops) - RequestCount(ops), DueCount(Unbounded, fpu, s, ops);
    if unasked > 0 { TimesGrow(1000 * s.interval, unasked - 1, m - 1); }
  }

  lemma OneMore(x: nat, m: nat)
    requires m > 0
    ensures x * m == x * (m - 1) + x
  {
  }

  lemma TimesGrow(x: nat, a: nat, b: nat)
    requires a <= b
    ensures x * a <= x * b
  {
  }

  // ---- every start is one completed report ----

  lemma FollowAccounts(clock: Clock, fpu: Fpu, t: Track, op: Op)
    requires WellFormed(t.sched) && WellTyped(op) && Benign(op) && OnCourse(fpu, t)
    ensures var r := Follow(clock, fpu, t, op);
            |r.completed| + (if r.sched.inProgress then 1 else 0)
            == |t.completed| + (if t.sched.inProgress then 1 else 0) + (if Starts(clock, fpu, t.sched, op) then 1 else 0)
    ensures Follow(clock, fpu, t, op).sched == Step(clock, fpu, t.sched, op)
  {
    hide FillFrom, Packets, Due;
  }

  // Without a restart, an abort or a cleared slot, the reports started are the reports completed,
  // and the one still under way.
  lemma {:induction false} StartsAreCompleted(clock: Clock, fpu: Fpu, t: Track, ops: seq<Op>)
    requires WellFormed(t.sched) && AllWellTyped(ops) && OnCourse(fpu, t) && forall k :: 0 <= k < |ops| ==> Benign(ops[k])
    ensures var r := FollowAll(clock, fpu, t, ops);
            |r.completed| + (if r.sched.inProgress then 1 else 0)
            == |t.completed| + (if t.sched.inProgress then 1 else 0) + StartCount(clock, fpu, t.sched, ops)
    ensures FollowAll(clock, fpu, t, ops).sched == Run(clock, fpu, t.sched, ops)
    decreases |ops|
  {
    hide Follow, OnCourse, Starts, Step;
    if ops == [] {
    } else {
      FollowAccounts(clock, fpu, t, ops[0]);
      FollowKeepsCourse(clock, fpu, t, ops[0]);
      StartsAreCompleted(clock, fpu, Follow(clock, fpu, t, ops[0]), ops[1..]);
    }
  }

  // ---- when a failed packet comes again ----

  // After a failed transmission the packet is offered again from five seconds later on, and not
  // before, unless another attempt failed meanwhile.
  lemma {:induction false} RetryWaits(fpu: Fpu, s: Sched, failedAt: nat, ops: seq<Op>, now: nat, capacity: nat)
    requires WellFormed(s) && s.pending && AllWellTyped(ops)
    requires forall k :: 0 <= k < |ops| ==> Keeps(ops[k]) && !ops[k].SendFailed?
    ensures AllWellTyped([SendFailed(failedAt)] + ops)
    ensures var r := Run(Unbounded, fpu, s, [SendFailed(failedAt)] + ops);
            PrepareOf(Unbounded, fpu, r, now, capacity).output
            == if capacity >= 51 && now >= failedAt + 5000 then s.payload else []
  {
    hide FillFrom;
    var failed := Step(Unbounded, fpu, s, SendFailed(failedAt));
    assert ([SendFailed(failedAt)] + ops)[1..] == ops;
    RetryIsIdentical(Unbounded, fpu, failed, ops, now, capacity);
    RetryTimeStays(fpu, failed, ops);
  }

  // A packet just filled is offered again at once, until it is sent or fails.
  lemma FreshPacketIsReady(fpu: Fpu, s: Sched, filledAt: nat, ops: seq<Op>, now: nat, capacity: nat)
    requires WellFormed(s) && !s.pending && Step(Unbounded, fpu, s, Prepare(filledAt, 51)).pending && AllWellTyped(ops)
    requires forall k :: 0 <= k < |ops| ==> Keeps(ops[k]) && !ops[k].SendFailed?
    ensures AllWellTyped([Prepare(filledAt, 51)] + ops)
    ensures var r := Run(Unbounded, fpu, s, [Prepare(filledAt, 51)] + ops);
            PrepareOf(Unbounded, fpu, r, now, capacity).output
            == if capacity >= 51 && now >= filledAt then PrepareOf(Unbounded, fpu, s, filledAt, 51).output else []
  {
    hide FillFrom;
    var filled := Step(Unbounded, fpu, s, Prepare(filledAt, 51));
    assert ([Prepare(filledAt, 51)] + ops)[1..] == ops;
    RetryIsIdentical(Unbounded, fpu, filled, ops, now, capacity);
    RetryTimeStays(fpu, filled, ops);
  }

  lemma {:induction false} RetryTimeStays(fpu: Fpu, s: Sched, ops: seq<Op>)
    requires WellFormed(s) && s.pending && AllWellTyped(ops)
    requires forall k :: 0 <= k < |ops| ==> Keeps(ops[k]) && !ops[k].SendFailed?
    ensures Run(Unbounded, fpu, s, ops).retryAt == s.retryAt
    decreases |ops|
  {
    hide FillFrom;
    if ops == [] {
    } else {
      RetryTimeStays(fpu, Step(Unbounded, fpu, s, ops[0]), ops[1..]);
    }
  }

  // ---- the samples are the latest polls ----

  predicate Touches(op: Op, slot: byte) {
    (op.RecordPoll? && ValidChannelConfig(op.channel) && op.channel.slot == slot) || op == ClearSlot(slot)
  }

  // The sample a poll leaves: its channel, its success, and the values it brought in their places.
  predicate Shows(sample: Sample, op: Op)
    requires op.RecordPoll? && WellTyped(op)
  {
    sample.Present? && |sample.values| == 2 && sample.channel == op.channel && sample.success == op.success &&
    sample.valueCount == (if op.success then op.count else 0) &&
    (op.success && op.values.Some? ==>
       forall i :: 0 <= i < op.count && i < 2 ==> sample.values[i] == op.values.value[i])
  }

  predicate Leaves(op: Op, slot: byte, sample: Sample)
    requires WellTyped(op)
  {
    if op.RecordPoll? then Shows(sample, op) else sample == Absent
  }

  // The last operation on a slot decides its sample.
  ghost predicate IsLatest(first: Sample, sample: Sample, ops: seq<Op>, slot: byte)
    requires AllWellTyped(ops)
  {
    ((forall k :: 0 <= k < |ops| ==> !Touches(ops[k], slot)) ==> sample == first) &&
    forall k :: 0 <= k < |ops| && Touches(ops[k], slot) && (forall j :: k < j < |ops| ==> !Touches(ops[j], slot))
                ==> Leaves(ops[k], slot, sample)
  }

  lemma StepLeavesSlot(clock: Clock, fpu: Fpu, s: Sched, op: Op, slot: byte)
    requires WellFormed(s) && WellTyped(op) && slot < 32
    ensures var sample := Step(clock, fpu, s, op).samples[slot];
            if Touches(op, slot) then Leaves(op, slot, sample) else sample == s.samples[slot]
  {
    hide FillFrom, Due;
  }

  // Over any run, a slot's sample is that of the last poll recorded for it, gone if it was cleared
  // since, and the initial one if neither ever happened.
  lemma {:induction false} SamplesAreLatestPolls(clock: Clock, fpu: Fpu, s: Sched, ops: seq<Op>, slot: byte)
    requires WellFormed(s) && AllWellTyped(ops) && slot < 32
    ensures IsLatest(s.samples[slot], Run(clock, fpu, s, ops).samples[slot], ops, slot)
    decreases |ops|
  {
    hide Step, IsLatest;
    if ops == [] {
      NothingIsLatest(s.samples[slot], slot);
    } else {
      var n := |ops| - 1;
      SamplesAreLatestPolls(clock, fpu, s, ops[..n], slot);
      LastStep(clock, fpu, s, ops);
      hide Run;
      var before := After(clock, fpu, s, ops, n);
      StepLeavesSlot(clock, fpu, before, ops[n], slot);
      LatestGoesOn(s.samples[slot], before.samples[slot], Run(clock, fpu, s, ops).samples[slot], ops[..n], ops[n], slot);
      assert ops == ops[..n] + [ops[n]];
    }
  }

  lemma NothingIsLatest(first: Sample, slot: byte)
    ensures IsLatest(first, first, [], slot)
  {
  }

  lemma LatestGoesOn(first: Sample, before: Sample, after: Sample, ops: seq<Op>, op: Op, slot: byte)
    requires AllWellTyped(ops) && WellTyped(op) && IsLatest(first, before, ops, slot)
    requires if Touches(op, slot) then Leaves(op, slot, after) else after == before
    ensures IsLatest(first, after, ops + [op], slot)
  {
    hide Touches, Leaves;
    var all := ops + [op];
    assert forall j :: 0 <= j < |ops| ==> all[j] == ops[j];
    if Touches(op, slot) {
      assert all[|ops|] == op;
    } else {
      assert (forall k :: 0 <= k < |all| ==> !Touches(all[k], slot)) ==> forall k :: 0 <= k < |ops| ==> !Touches(ops[k], slot);
      forall k | 0 <= k < |all| && Touches(all[k], slot) && forall j :: k < j < |all| ==> !Touches(all[j], slot)
        ensures Leaves(all[k], slot, after)
      {
        assert forall j :: k < j < |ops| ==> !Touches(ops[j], slot);
        assert Touches(ops[k], slot);
      }
    }
  }

  // ---- the report is frozen ----

  lemma StepKeepsReport(clock: Clock, fpu: Fpu, s: Sched, op: Op, slot: byte)
    requires WellFormed(s) && WellTyped(op) && slot < 32
    ensures Step(clock, fpu, s, op).report[slot]
         == if Starts(clock, fpu, s, op) then s.samples[slot] else if op == ClearSlot(slot) then Absent else s.report[slot]
  {
    hide FillFrom, Due;
  }

  // From one start to the next, polls change nothing in the running report. Clearing a slot takes the
  // slot out of it.
  lemma {:induction false} ReportIsFrozen(clock: Clock, fpu: Fpu, s: Sched, ops: seq<Op>, slot: byte)
    requires WellFormed(s) && AllWellTyped(ops) && slot < 32
    requires forall k :: 0 <= k < |ops| ==> !Starts(clock, fpu, After(clock, fpu, s, ops, k), ops[k])
    ensures Run(clock, fpu, s, ops).report[slot] == if ClearSlot(slot) in ops then Absent else s.report[slot]
    decreases |ops|
  {
    hide Step, Starts, After;
    if ops == [] {
    } else {
      var n := |ops| - 1;
      forall k | 0 <= k < n
        ensures !Starts(clock, fpu, After(clock, fpu, s, ops[..n], k), ops[..n][k])
      {
        EarlierStates(clock, fpu, s, ops, n, k);
      }
      ReportIsFrozen(clock, fpu, s, ops[..n], slot);
      LastStep(clock, fpu, s, ops);
      hide Run;
      StepKeepsReport(clock, fpu, After(clock, fpu, s, ops, n), ops[n], slot);
      assert ops == ops[..n] + [ops[n]];
    }
  }

  // A restart is idle, with the first deadline one interval away, whatever went before.
  lemma RestartIsIdle(fpu: Fpu, s: Sched, seconds: u16, at: nat, now: nat, capacity: nat)
    requires WellFormed(s) && capacity >= 51
    ensures var r := Step(Unbounded, fpu, s, Begin(seconds, at));
            IdleState(r) && !r.immediate && r.samples == s.samples &&
            (PrepareOf(Unbounded, fpu, r, now, capacity).status == NotDue <==>
               now < at + 1000 * (if 60 <= seconds <= 64800 then seconds else 1200))
  {
    hide FillFrom;
  }
}
