// Channel conditions of the rule engine: a small timed state machine per rule. Values are reals:
// rounding is not the point, order and difference are.
module RuleCondition {
  import opened Words

  datatype Mode = FalseValue | TrueValue | Below | Above | Within | ChangeRecent | ChangeInterval

  datatype Plan = Plan(
    channelId: byte, continueMode: byte, mode: Mode, continueTimeMs: u32, lockTimeMs: u32,
    minimum: real, maximum: real, changeIntervalMs: u32)

  // A polled scalar: a boolean, a number, or a floating-point value that is not finite.
  datatype Reading = Truth(truth: bool) | Number(value: real) | NotFinite

  const DAY_MS: int := 86400000

  // The bounds that decodeChannelCondition enforces.
  predicate ValidPlan(p: Plan) {
    1 <= p.channelId <= 32 && p.continueMode <= 1 &&
    p.continueTimeMs <= DAY_MS && p.lockTimeMs <= DAY_MS && p.changeIntervalMs <= DAY_MS
  }

  predicate ChangeMode(p: Plan) {
    p.mode == ChangeRecent || p.mode == ChangeInterval
  }

  predicate Usable(r: Reading) {
    !r.NotFinite?
  }

  function Value(r: Reading): real
    requires Usable(r)
  {
    match r
    case Truth(truth) => if truth then 1.0 else 0.0
    case Number(value) => value
  }

  function Abs(x: real): real {
    if x < 0.0 then -x else x
  }

  predicate Threshold(p: Plan, r: Reading) {
    Usable(r) &&
    match p.mode
    case FalseValue => r == Truth(false)
    case TrueValue => r == Truth(true)
    case Below => Value(r) < p.minimum
    case Above => Value(r) > p.maximum
    case Within => p.minimum <= Value(r) <= p.maximum
    case _ => false
  }

  // ---- decoding a stored condition frame ----

  // `float` gives the value of a float32 bit pattern, unless it is not finite.
  function DecodePlan(float: u32 -> Option<real>, frame: seq<byte>): Option<Plan> {
    if |frame| != 22 || frame[0] != 0xf9 || frame[1] != 0x7d || frame[3] != 0x12 then None
    else
      var threshold, continueMode := frame[5] % 16, frame[5] / 16;
      if frame[4] < 1 || frame[4] > 32 || continueMode > 1 || !(threshold <= 4 || threshold == 6 || threshold == 7) then None
      else
        var mode := [FalseValue, TrueValue, Below, Above, Within, FalseValue, ChangeRecent, ChangeInterval][threshold];
        var first, second := Le32(frame[14], frame[15], frame[16], frame[17]), Le32(frame[18], frame[19], frame[20], frame[21]);
        var continueTimeMs, lockTimeMs := Le32(frame[6], frame[7], frame[8], frame[9]), Le32(frame[10], frame[11], frame[12], frame[13]);
        var minimum := if mode == ChangeInterval then Some(0.0) else float(first);
        var maximum := float(second);
        var changeIntervalMs := if mode == ChangeInterval then first else 0;
        if continueTimeMs > DAY_MS || lockTimeMs > DAY_MS || changeIntervalMs > DAY_MS || minimum == None || maximum == None then None
        else Some(Plan(frame[4], continueMode, mode, continueTimeMs, lockTimeMs, minimum.value, maximum.value, changeIntervalMs))
  }

  lemma DecodedPlanIsValid(float: u32 -> Option<real>, frame: seq<byte>)
    requires DecodePlan(float, frame).Some?
    ensures ValidPlan(DecodePlan(float, frame).value)
  {
  }

  // ---- what a frame says ----

  // The number that a reading counts as: a truth value is one or zero.
  predicate CountsAs(r: Reading, x: real) {
    r == Number(x) || (r == Truth(true) && x == 1.0) || (r == Truth(false) && x == 0.0)
  }

  // Main result: the threshold of a stored frame, by its mode number and its two limits. Modes 0 and
  // 1 wait for a truth value, 2 to 4 for a number below, above or within the limits; 6 and 7 are
  // about changes.
  lemma ThresholdFollowsFrame(float: u32 -> Option<real>, frame: seq<byte>, r: Reading)
    requires DecodePlan(float, frame).Some?
    ensures |frame| == 22
    ensures var p := DecodePlan(float, frame).value;
            var low, high := float(Le32(frame[14], frame[15], frame[16], frame[17])), float(Le32(frame[18], frame[19], frame[20], frame[21]));
            match frame[5] % 16
            case 0 => !ChangeMode(p) && (Threshold(p, r) <==> r == Truth(false))
            case 1 => !ChangeMode(p) && (Threshold(p, r) <==> r == Truth(true))
            case 2 => !ChangeMode(p) && low.Some? && (Threshold(p, r) <==> exists x :: CountsAs(r, x) && x < low.value)
            case 3 => !ChangeMode(p) && high.Some? && (Threshold(p, r) <==> exists x :: CountsAs(r, x) && x > high.value)
            case 4 => !ChangeMode(p) && low.Some? && high.Some? &&
                      (Threshold(p, r) <==> exists x :: CountsAs(r, x) && low.value <= x <= high.value)
            case 6 => p.mode == ChangeRecent && Some(p.maximum) == high
            case 7 => p.mode == ChangeInterval && Some(p.maximum) == high
            case _ => false
  {
    hide Le32;
    if Usable(r) { assert CountsAs(r, Value(r)); }
  }

  // The other fields of the frame.
  lemma PlanFollowsFrame(float: u32 -> Option<real>, frame: seq<byte>)
    requires DecodePlan(float, frame).Some?
    ensures |frame| == 22
    ensures var p := DecodePlan(float, frame).value;
            p.channelId == frame[4] && 16 * p.continueMode + frame[5] % 16 == frame[5] &&
            p.continueTimeMs == FromLe(frame[6..10]) && p.lockTimeMs == FromLe(frame[10..14]) &&
            (frame[5] % 16 == 7 ==> p.changeIntervalMs == FromLe(frame[14..18]))
  {
    FromLeOf4(frame[6..10]); FromLeOf4(frame[10..14]); FromLeOf4(frame[14..18]);
  }

  // With limits in order, a usable reading is below, within or above them, exactly one of the three;
  // a truth value is true or false, and a number neither.
  lemma ThresholdsPartition(p: Plan, r: Reading)
    requires p.minimum <= p.maximum
    ensures var below, within, above := Threshold(p.(mode := Below), r), Threshold(p.(mode := Within), r), Threshold(p.(mode := Above), r);
            if r.NotFinite? then !below && !within && !above
            else (below || within || above) && !(below && within) && !(below && above) && !(within && above)
    ensures r.Truth? <==> Threshold(p.(mode := TrueValue), r) != Threshold(p.(mode := FalseValue), r)
  {
  }

  // A change is measured in either direction.
  lemma ChangeIsEitherWay(a: Reading, b: Reading, least: real)
    requires Usable(a) && Usable(b)
    ensures Abs(Value(a) - Value(b)) >= least <==>
            exists x, y :: CountsAs(a, x) && CountsAs(b, y) && (x - y >= least || y - x >= least)
  {
    assert CountsAs(a, Value(a)) && CountsAs(b, Value(b));
  }

  // ---- one evaluation ----

  datatype State = State(
    active: bool, fired: bool, activeSince: u32, lockedUntil: u32, havePrevious: bool, previousValue: real, previousAt: u32)

  const INITIAL: State := State(false, false, 0, 0, false, 0.0, 0)

  predicate LockedAt(s: State, now: u32) {
    SignedDistance(now, s.lockedUntil) < 0
  }

  datatype Outcome = Outcome(fire: bool, state: State)

  function Evaluate(p: Plan, r: Reading, now: u32, s: State): Outcome {
    if !Usable(r) then Outcome(false, s)
    else match p.mode
      case ChangeRecent => EvaluateRecent(p, Value(r), now, s)
      case ChangeInterval => EvaluateInterval(p, Value(r), now, s)
      case _ => EvaluateThreshold(p, Threshold(p, r), now, s)
  }

  function EvaluateRecent(p: Plan, value: real, now: u32, s: State): Outcome {
    var fire := s.havePrevious && !LockedAt(s, now) && Abs(value - s.previousValue) >= p.maximum;
    Outcome(fire, s.(previousValue := value, previousAt := now, havePrevious := true,
                     lockedUntil := if fire then Wrap32(now + p.lockTimeMs) else s.lockedUntil))
  }

  function EvaluateInterval(p: Plan, value: real, now: u32, s: State): Outcome {
    if !s.havePrevious then Outcome(false, s.(previousValue := value, previousAt := now, havePrevious := true))
    else if Wrap32(now - s.previousAt) < p.changeIntervalMs then Outcome(false, s)
    else
      var fire := !LockedAt(s, now) && Abs(value - s.previousValue) >= p.maximum;
      Outcome(fire, s.(previousValue := value, previousAt := now,
                       lockedUntil := if fire then Wrap32(now + p.lockTimeMs) else s.lockedUntil))
  }

  function EvaluateThreshold(p: Plan, holds: bool, now: u32, s: State): Outcome {
    if LockedAt(s, now) then
      Outcome(false, if holds then s else s.(active := false, fired := false))
    else if !holds then
      var early := s.active && !s.fired && p.continueMode == 0 && p.continueTimeMs > 0 &&
                   Wrap32(now - s.activeSince) < p.continueTimeMs;
      Outcome(early, s.(active := false, fired := false,
                        lockedUntil := if early then Wrap32(now + p.lockTimeMs) else s.lockedUntil))
    else
      var since := if s.active then s.activeSince else now;
      var already := s.active && s.fired;
      var fire := !already &&
                  (p.continueTimeMs == 0 || (p.continueMode == 1 && Wrap32(now - since) >= p.continueTimeMs));
      Outcome(fire, s.(active := true, activeSince := since, fired := already || fire,
                       lockedUntil := if fire then Wrap32(now + p.lockTimeMs) else s.lockedUntil))
  }

  // The runtime record of a rule, updated in place by every poll of its channel.
  class Runtime {
    var active: bool
    var firedForActive: bool
    var activeSinceMs: u32
    var lockedUntilMs: u32
    var havePrevious: bool
    var previousValue: real
    var previousAtMs: u32

    function View(): State
      reads this
    {
      State(active, firedForActive, activeSinceMs, lockedUntilMs, havePrevious, previousValue, previousAtMs)
    }

    constructor ()
      ensures View() == INITIAL
    {
      active, firedForActive, activeSinceMs, lockedUntilMs := false, false, 0, 0;
      havePrevious, previousValue, previousAtMs := false, 0.0, 0;
    }

    method EvaluateChannelCondition(p: Plan, r: Reading, nowMs: u32) returns (fire: bool)
      modifies this
      ensures Outcome(fire, View()) == Evaluate(p, r, nowMs, old(View()))
    {
      hide Threshold, Value, Abs, SignedDistance, Wrap32;
      if r.NotFinite? { return false; }
      var value := Value(r);

      if p.mode == ChangeRecent {
        fire := false;
        if havePrevious && SignedDistance(nowMs, lockedUntilMs) >= 0 {
          fire := Abs(value - previousValue) >= p.maximum;
        }
        previousValue, previousAtMs, havePrevious := value, nowMs, true;
        if fire { lockedUntilMs := Wrap32(nowMs + p.lockTimeMs); }
        return fire;
      }

      if p.mode == ChangeInterval {
        if !havePrevious {
          previousValue, previousAtMs, havePrevious := value, nowMs, true;
          return false;
        }
        if Wrap32(nowMs - previousAtMs) < p.changeIntervalMs { return false; }
        fire := SignedDistance(nowMs, lockedUntilMs) >= 0 && Abs(value - previousValue) >= p.maximum;
        previousValue, previousAtMs := value, nowMs;
        if fire { lockedUntilMs := Wrap32(nowMs + p.lockTimeMs); }
        return fire;
      }

      fire := EvaluateHeldThreshold(p, Threshold(p, r), nowMs);
    }

    method EvaluateHeldThreshold(p: Plan, holds: bool, nowMs: u32) returns (fire: bool)
      modifies this
      ensures Outcome(fire, View()) == EvaluateThreshold(p, holds, nowMs, old(View()))
    {
      hide SignedDistance, Wrap32;
      if SignedDistance(nowMs, lockedUntilMs) < 0 {
        if !holds { active, firedForActive := false, false; }
        return false;
      }
      if !holds {
        if active && !firedForActive && p.continueMode == 0 && p.continueTimeMs > 0 &&
           Wrap32(nowMs - activeSinceMs) < p.continueTimeMs {
          active, firedForActive := false, false;
          lockedUntilMs := Wrap32(nowMs + p.lockTimeMs);
          return true;
        }
        active, firedForActive := false, false;
        return false;
      }
      if !active { active, activeSinceMs, firedForActive := true, nowMs, false; }
      if firedForActive { return false; }
      if p.continueTimeMs == 0 || (p.continueMode == 1 && Wrap32(nowMs - activeSinceMs) >= p.continueTimeMs) {
        firedForActive := true;
        lockedUntilMs := Wrap32(nowMs + p.lockTimeMs);
        return true;
      }
      return false;
    }
  }

  // ---- traces ----

  // A poll of the channel, at a time that does not wrap.
  datatype Poll = Poll(reading: Reading, at: nat)

  function StateAfter(p: Plan, trace: seq<Poll>, k: nat): State
    requires k <= |trace|
    decreases k
  {
    if k == 0 then INITIAL
    else Evaluate(p, trace[k - 1].reading, Wrap32(trace[k - 1].at), StateAfter(p, trace, k - 1)).state
  }

  predicate Fires(p: Plan, trace: seq<Poll>, k: nat)
    requires k < |trace|
  {
    Evaluate(p, trace[k].reading, Wrap32(trace[k].at), StateAfter(p, trace, k)).fire
  }

  predicate Locked(p: Plan, trace: seq<Poll>, k: nat)
    requires k < |trace|
  {
    LockedAt(StateAfter(p, trace, k), Wrap32(trace[k].at))
  }

  // Time does not run backwards, and a trace spans less than 2^31 ms.
  predicate InOrder(trace: seq<Poll>) {
    forall i, j :: 0 <= i <= j < |trace| ==> trace[i].at <= trace[j].at
  }

  predicate Timely(trace: seq<Poll>) {
    InOrder(trace) && (trace != [] ==> trace[|trace| - 1].at - trace[0].at < TWO_31)
  }

  // The last fire before poll k.
  function LastFire(p: Plan, trace: seq<Poll>, k: nat): (r: Option<nat>)
    requires k <= |trace|
    ensures r.Some? ==> r.value < k && Fires(p, trace, r.value)
    ensures forall j :: (if r.Some? then r.value + 1 else 0) <= j < k ==> !Fires(p, trace, j)
    decreases k
  {
    if k == 0 then None else if Fires(p, trace, k - 1) then Some(k - 1) else LastFire(p, trace, k - 1)
  }

  // The lock is the one set by the last fire.
  lemma {:induction false} LockIsLastFire(p: Plan, trace: seq<Poll>, k: nat)
    requires k <= |trace|
    ensures StateAfter(p, trace, k).lockedUntil ==
            match LastFire(p, trace, k) case None => 0 case Some(i) => Wrap32(trace[i].at + p.lockTimeMs)
    decreases k
  {
    hide Threshold, LockedAt, Abs, Wrap32;
    if k == 0 {
    } else {
      LockIsLastFire(p, trace, k - 1);
      LockAfterWrap(trace[k - 1].at, p.lockTimeMs);
    }
  }

  lemma LockAfterWrap(t: nat, lock: int)
    ensures Wrap32(Wrap32(t) + lock) == Wrap32(t + lock)
  {
  }

  // Whether a poll meets a lock, from the fires before it: less than the lock time after the last
  // one. Before the first fire, the upper half of the 32-bit uptime looks locked.
  predicate LockedBy(p: Plan, trace: seq<Poll>, k: nat)
    requires k < |trace|
  {
    match LastFire(p, trace, k)
    case None => Wrap32(trace[k].at) >= TWO_31
    case Some(i) => trace[k].at - trace[i].at < p.lockTimeMs
  }

  // A record that has never fired compares with time 0.
  lemma FreshRecordLock(p: Plan, trace: seq<Poll>, k: nat)
    requires k < |trace| && LastFire(p, trace, k) == None
    ensures Locked(p, trace, k) <==> Wrap32(trace[k].at) >= TWO_31
  {
    hide Evaluate;
    LockIsLastFire(p, trace, k);
  }

  // The runtime record's lock is that one.
  lemma LockedMeans(p: Plan, trace: seq<Poll>, k: nat)
    requires ValidPlan(p) && Timely(trace) && k < |trace|
    ensures Locked(p, trace, k) <==> LockedBy(p, trace, k)
  {
    hide Evaluate, Fires;
    LockIsLastFire(p, trace, k);
    var last := LastFire(p, trace, k);
    if last == None {
      FreshRecordLock(p, trace, k);
    } else {
      var t, u := trace[k].at, trace[last.value].at;
      assert 0 <= t - u < TWO_31;
      DistanceOf(t, u + p.lockTimeMs);
    }
  }

  lemma FireMeansUnlocked(p: Plan, trace: seq<Poll>, k: nat)
    requires k < |trace| && Fires(p, trace, k)
    ensures !Locked(p, trace, k) && Usable(trace[k].reading)
  {
  }

  // Main result, in every mode and however long the uptime: fires are never closer than the lock
  // time. The wrapped lock is exact for as long as it lasts.
  lemma {:induction false} FiresAreSpaced(p: Plan, trace: seq<Poll>, i: nat, k: nat)
    requires ValidPlan(p) && InOrder(trace) && i < k < |trace| && Fires(p, trace, i) && Fires(p, trace, k)
    ensures trace[k].at - trace[i].at >= p.lockTimeMs
    decreases k
  {
    hide Evaluate, Fires, Locked;
    FireMeansUnlocked(p, trace, k);
    LockIsLastFire(p, trace, k);
    var last := LastFire(p, trace, k).value;
    LockLasts(p, trace, k, last);
    if i == last {
    } else {
      FiresAreSpaced(p, trace, i, last);
    }
  }

  lemma LockLasts(p: Plan, trace: seq<Poll>, k: nat, last: nat)
    requires ValidPlan(p) && InOrder(trace) && last < k < |trace|
    requires StateAfter(p, trace, k).lockedUntil == Wrap32(trace[last].at + p.lockTimeMs)
    ensures trace[k].at - trace[last].at < p.lockTimeMs ==> Locked(p, trace, k)
  {
    hide Evaluate;
    var t, u := trace[k].at, trace[last].at + p.lockTimeMs;
    if t < u { DistanceOf(t, u); }
  }

  // ---- threshold modes ----

  predicate Holds(p: Plan, trace: seq<Poll>, k: nat)
    requires k < |trace|
  {
    Threshold(p, trace[k].reading)
  }

  // The poll that started the running stretch of polls on which the threshold held: the first
  // unlocked one since the last usable poll on which it did not.
  function StretchStart(p: Plan, trace: seq<Poll>, k: nat): (r: Option<nat>)
    requires k <= |trace|
    ensures r.Some? ==> r.value < k && Usable(trace[r.value].reading) && !LockedBy(p, trace, r.value) && Holds(p, trace, r.value)
    ensures r.Some? ==> forall j :: r.value <= j < k && Usable(trace[j].reading) ==> Holds(p, trace, j)
    decreases k
  {
    if k == 0 then None
    else if !Usable(trace[k - 1].reading) then StretchStart(p, trace, k - 1)
    else if !Holds(p, trace, k - 1) then None
    else
      var earlier := StretchStart(p, trace, k - 1);
      if earlier.Some? then earlier else if LockedBy(p, trace, k - 1) then None else Some(k - 1)
  }

  // The stretch has already fired.
  predicate FiredSince(p: Plan, trace: seq<Poll>, start: nat, k: nat)
    requires k <= |trace|
  {
    exists j :: start <= j < k && Fires(p, trace, j)
  }

  // The runtime record is this trace history in small.
  lemma {:induction false} RecordIsHistory(p: Plan, trace: seq<Poll>, k: nat)
    requires !ChangeMode(p) && ValidPlan(p) && Timely(trace) && k <= |trace|
    ensures var s, start := StateAfter(p, trace, k), StretchStart(p, trace, k);
            s.active == start.Some? && (!s.active ==> !s.fired) &&
            (s.active ==> s.activeSince == Wrap32(trace[start.value].at) &&
                          (s.fired <==> FiredSince(p, trace, start.value, k)))
    decreases k
  {
    hide Threshold, LockedAt, LockedBy, Wrap32;
    if k == 0 {
    } else {
      RecordIsHistory(p, trace, k - 1);
      LockedMeans(p, trace, k - 1);
      var before, after := StretchStart(p, trace, k - 1), StretchStart(p, trace, k);
      if after.Some? {
        if before.Some? {
          FiredSinceStep(p, trace, after.value, k);
        } else {
          FiredSinceStep(p, trace, k - 1, k);
        }
      }
    }
  }

  lemma FiredSinceStep(p: Plan, trace: seq<Poll>, start: nat, k: nat)
    requires 0 < k <= |trace| && start < k
    ensures FiredSince(p, trace, start, k) <==> FiredSince(p, trace, start, k - 1) || Fires(p, trace, k - 1)
  {
    if Fires(p, trace, k - 1) { assert start <= k - 1 < k; }
  }

  lemma ElapsedIs(a: nat, b: nat)
    requires 0 <= a - b < TWO_31
    ensures Wrap32(Wrap32(a) - Wrap32(b)) == a - b
  {
    WrapDistance(a, b);
  }

  // When a threshold rule fires, in terms of the polls and the fires before it.
  predicate ShouldFire(p: Plan, trace: seq<Poll>, k: nat)
    requires k < |trace|
  {
    var start := StretchStart(p, trace, k);
    Usable(trace[k].reading) && !LockedBy(p, trace, k) &&
    if Holds(p, trace, k) then
      var from := if start.Some? then start.value else k;
      !FiredSince(p, trace, from, k) &&
      (p.continueTimeMs == 0 || (p.continueMode == 1 && trace[k].at - trace[from].at >= p.continueTimeMs))
    else
      start.Some? && !FiredSince(p, trace, start.value, k) &&
      p.continueMode == 0 && 0 < p.continueTimeMs && trace[k].at - trace[start.value].at < p.continueTimeMs
  }

  // Main result: the state machine fires exactly when the trace says so.
  lemma FiresExactlyWhen(p: Plan, trace: seq<Poll>, k: nat)
    requires !ChangeMode(p) && ValidPlan(p) && Timely(trace) && k < |trace|
    ensures Fires(p, trace, k) <==> ShouldFire(p, trace, k)
  {
    hide Threshold, LockedAt, LockedBy, Wrap32;
    RecordIsHistory(p, trace, k);
    LockedMeans(p, trace, k);
    var start := StretchStart(p, trace, k);
    if start.Some? { ElapsedIs(trace[k].at, trace[start.value].at); }
    ElapsedIs(trace[k].at, trace[k].at);
  }

  // A fire while the threshold holds is immediate, or follows a window of at least the hold time
  // in which the threshold held at every usable poll.
  lemma HeldThroughWindow(p: Plan, trace: seq<Poll>, k: nat) returns (from: nat)
    requires !ChangeMode(p) && ValidPlan(p) && Timely(trace) && k < |trace| && Fires(p, trace, k) && Holds(p, trace, k)
    ensures from <= k && trace[k].at - trace[from].at >= p.continueTimeMs && Holds(p, trace, from)
    ensures forall j :: from <= j <= k && Usable(trace[j].reading) ==> Holds(p, trace, j)
    ensures p.continueTimeMs > 0 ==> p.continueMode == 1
    ensures forall j :: from <= j < k ==> !Fires(p, trace, j)
  {
    hide Threshold, Fires, LockedBy;
    FiresExactlyWhen(p, trace, k);
    var start := StretchStart(p, trace, k);
    from := if start.Some? then start.value else k;
  }

  // Between two such fires there is a usable poll on which the threshold did not hold.
  lemma FalsePollSeparatesFires(p: Plan, trace: seq<Poll>, i: nat, k: nat) returns (j: nat)
    requires !ChangeMode(p) && ValidPlan(p) && Timely(trace) && i < k < |trace|
    requires Fires(p, trace, i) && Holds(p, trace, i) && Fires(p, trace, k) && Holds(p, trace, k)
    ensures i < j < k && Usable(trace[j].reading) && !Holds(p, trace, j)
  {
    hide Threshold, Fires, Locked, LockedBy;
    FireMeansUnlocked(p, trace, i);
    LockedMeans(p, trace, i);
    FiresExactlyWhen(p, trace, k);
    if forall j :: i < j < k && Usable(trace[j].reading) ==> Holds(p, trace, j) {
      StretchCovers(p, trace, i, k);
      assert false;
    }
    j :| i < j < k && Usable(trace[j].reading) && !Holds(p, trace, j);
  }

  lemma {:induction false} StretchCovers(p: Plan, trace: seq<Poll>, i: nat, k: nat)
    requires i < k <= |trace| && Usable(trace[i].reading) && Holds(p, trace, i) && !LockedBy(p, trace, i)
    requires forall j :: i < j < k && Usable(trace[j].reading) ==> Holds(p, trace, j)
    ensures StretchStart(p, trace, k).Some? && StretchStart(p, trace, k).value <= i
    decreases k
  {
    hide Threshold, LockedBy;
    if k == i + 1 {
    } else {
      StretchCovers(p, trace, i, k - 1);
    }
  }

  // In mode 0 with a positive time, a fire is the end of a stretch shorter than that time.
  lemma EndOfShortStretch(p: Plan, trace: seq<Poll>, k: nat) returns (from: nat)
    requires !ChangeMode(p) && ValidPlan(p) && Timely(trace) && k < |trace| && Fires(p, trace, k)
    requires p.continueMode == 0 && p.continueTimeMs > 0
    ensures from < k && !Holds(p, trace, k) && Usable(trace[k].reading) && Holds(p, trace, from)
    ensures trace[k].at - trace[from].at < p.continueTimeMs
    ensures forall j :: from <= j < k && Usable(trace[j].reading) ==> Holds(p, trace, j)
  {
    hide Threshold, Fires, LockedBy;
    FiresExactlyWhen(p, trace, k);
    from := StretchStart(p, trace, k).value;
  }

  // ---- change modes ----

  // The usable poll that a change rule compares with.
  function Baseline(p: Plan, trace: seq<Poll>, k: nat): (r: Option<nat>)
    requires k <= |trace|
    ensures r.Some? ==> r.value < k && Usable(trace[r.value].reading)
    decreases k
  {
    if k == 0 then None
    else
      var earlier := Baseline(p, trace, k - 1);
      if !Usable(trace[k - 1].reading) then earlier
      else if p.mode == ChangeInterval && earlier.Some? && trace[k - 1].at - trace[earlier.value].at < p.changeIntervalMs then earlier
      else Some(k - 1)
  }

  lemma {:induction false} RecordIsBaseline(p: Plan, trace: seq<Poll>, k: nat)
    requires ChangeMode(p) && Timely(trace) && k <= |trace|
    ensures var s, b := StateAfter(p, trace, k), Baseline(p, trace, k);
            s.havePrevious == b.Some? &&
            (b.Some? ==> s.previousValue == Value(trace[b.value].reading) && s.previousAt == Wrap32(trace[b.value].at))
    decreases k
  {
    hide LockedAt, Wrap32, Value, Abs, Threshold;
    if k == 0 {
    } else {
      RecordIsBaseline(p, trace, k - 1);
      var b := Baseline(p, trace, k - 1);
      if b.Some? { ElapsedIs(trace[k - 1].at, trace[b.value].at); }
    }
  }

  // Main result: a change rule fires exactly on an unlocked usable poll that differs enough from
  // its baseline (for the interval mode, one at least the interval earlier).
  lemma ChangeFiresExactlyWhen(p: Plan, trace: seq<Poll>, k: nat)
    requires ChangeMode(p) && ValidPlan(p) && Timely(trace) && k < |trace|
    ensures var b := Baseline(p, trace, k);
            Fires(p, trace, k) <==>
              Usable(trace[k].reading) && !LockedBy(p, trace, k) && b.Some? &&
              Abs(Value(trace[k].reading) - Value(trace[b.value].reading)) >= p.maximum &&
              (p.mode == ChangeInterval ==> trace[k].at - trace[b.value].at >= p.changeIntervalMs)
  {
    hide LockedAt, LockedBy, Wrap32, Value, Abs, Threshold;
    RecordIsBaseline(p, trace, k);
    LockedMeans(p, trace, k);
    var b := Baseline(p, trace, k);
    if b.Some? { ElapsedIs(trace[k].at, trace[b.value].at); }
  }
}
