// When the network is lost and found: what becomes pending, since when, and how the payloads that
// follow are spaced. The history of connections is that of the loop steps, not of the state.
module HistoryLoss {
  import opened Words
  import opened HistoryRing
  import opened HistoryImage
  import opened HistoryDelivery

  // The k-th step finds the network gone that was there before it, with retransmission enabled, the
  // time known and the loss stored.
  predicate Loses(d: Delivery, envs: seq<Env>, k: nat)
    requires k < |envs|
  {
    var e := envs[k];
    (if k == 0 then d.networkKnown && d.wasConnected else envs[k - 1].connected) && !e.connected &&
    e.settings.storageEnabled && e.settings.retransmissionEnabled && e.unixNow > 0 && e.saveOk
  }

  function LastLoss(d: Delivery, envs: seq<Env>, k: nat): (r: Option<nat>)
    requires k <= |envs|
    ensures r.Some? ==> r.value < k && Loses(d, envs, r.value)
    ensures forall j :: (if r.Some? then r.value + 1 else 0) <= j < k ==> !Loses(d, envs, j)
  {
    if k == 0 then None else if Loses(d, envs, k - 1) then Some(k - 1) else LastLoss(d, envs, k - 1)
  }

  // A step that could finish a retransmission and store that nothing is pending.
  predicate MayClear(e: Env) {
    e.turn && e.linked && Enabled(e.settings) && e.saveOk
  }

  predicate NoClearSince(envs: seq<Env>, from: nat, k: nat)
    requires k <= |envs|
  {
    forall j :: from <= j < k ==> !MayClear(envs[j])
  }

  lemma StepKeepsLoss(d: Delivery, e: Env)
    requires WellFormed(d)
    ensures var s := Step(d, e).state;
            s.networkKnown && s.wasConnected == e.connected &&
            if d.networkKnown && d.wasConnected && !e.connected && Enabled(e.settings) && e.unixNow > 0 && e.saveOk then
              (s.pending ==> s.lostAt == Wrap32(e.unixNow)) && (!MayClear(e) ==> s.pending)
            else
              (s.pending ==> d.pending && s.lostAt == d.lostAt) && (!MayClear(e) && d.pending ==> s.pending)
  {
    hide FirstSince, PacketOf, SignedDistance, Wrap32;
  }

  // Main result, over any run: what is pending is the last loss there was, with the time it was noticed,
  // or what was pending before the run; and it stays pending until a step that may clear it.
  lemma {:induction false} PendingTellsLastLoss(d: Delivery, envs: seq<Env>, k: nat)
    requires WellFormed(d) && k <= |envs|
    ensures var s, last := Deliver(d, envs[..k]).state, LastLoss(d, envs, k);
            (k > 0 ==> s.networkKnown && s.wasConnected == envs[k - 1].connected) &&
            (s.pending ==> match last
                           case None => d.pending && s.lostAt == d.lostAt
                           case Some(i) => s.lostAt == Wrap32(envs[i].unixNow)) &&
            (NoClearSince(envs, if last.Some? then last.value else 0, k) && (last.Some? || d.pending) ==> s.pending)
    decreases k
  {
    hide Step, Wrap32, MayClear;
    if k == 0 {
      assert envs[..0] == [];
    } else {
      PendingTellsLastLoss(d, envs, k - 1);
      assert envs[..k][..k - 1] == envs[..k - 1] && envs[..k][k - 1] == envs[k - 1];
      StepKeepsLoss(Deliver(d, envs[..k - 1]).state, envs[k - 1]);
    }
  }

  // From the loss to the return: when the network comes back after a recorded loss, the payloads the
  // radio accepts are exactly the records not older than the time of that loss.
  lemma ReturnDeliversSinceLoss(d: Delivery, envs: seq<Env>, back: seq<Env>)
    requires WellFormed(d) && LastLoss(d, envs, |envs|).Some? && back != [] && forall k :: 0 <= k < |back| ==> back[k].connected
    requires !envs[|envs| - 1].connected
    requires NoClearSince(envs, LastLoss(d, envs, |envs|).value, |envs|)
    ensures var lostAt := Wrap32(envs[LastLoss(d, envs, |envs|).value].unixNow);
            OnCourse(Deliver(Deliver(d, envs).state, back), lostAt, back[0].nowMs, SessionSnapshot(back[0].nowMs, back))
  {
    hide OnCourse, Deliver, Wrap32, MayClear, SessionSnapshot;
    assert envs[..|envs|] == envs;
    PendingTellsLastLoss(d, envs, |envs|);
    DeliveryIsExact(Deliver(d, envs).state, back);
  }

  // How many payloads were handed to the radio.
  function Offers(d: Delivery, envs: seq<Env>): nat
    requires WellFormed(d)
  {
    if envs == [] then 0
    else
      var n := |envs| - 1;
      Offers(d, envs[..n]) + (if Step(Deliver(d, envs[..n]).state, envs[n]).offered.Some? then 1 else 0)
  }

  lemma StepCounts(d: Delivery, e: Env)
    requires WellFormed(d)
    ensures var a := Step(d, e);
            a.state.packetsSent == d.packetsSent + (if a.offered.Some? && e.sendOk then 1 else 0) &&
            a.state.sendFailures == d.sendFailures + (if a.offered.Some? && !e.sendOk then 1 else 0)
  {
    hide RetransmitOf, Wrap32, Enabled;
    AttemptCounts(NetworkOf(d, e), e);
  }

  lemma AttemptCounts(d: Delivery, e: Env)
    requires WellFormed(d)
    ensures var a := RetransmitOf(d, e);
            a.state.packetsSent == d.packetsSent + (if a.offered.Some? && e.sendOk then 1 else 0) &&
            a.state.sendFailures == d.sendFailures + (if a.offered.Some? && !e.sendOk then 1 else 0)
  {
    hide PacketOf, Ready, FirstSince, Wrap32;
  }

  // Each of them is counted once, as sent or as failed.
  lemma {:induction false} OffersAreCounted(d: Delivery, envs: seq<Env>)
    requires WellFormed(d)
    ensures var r := Deliver(d, envs);
            r.state.packetsSent == d.packetsSent + |r.accepted| &&
            r.state.sendFailures + |r.accepted| == d.sendFailures + Offers(d, envs)
    decreases |envs|
  {
    hide Step;
    if envs == [] {
    } else {
      var n := |envs| - 1;
      OffersAreCounted(d, envs[..n]);
      StepCounts(Deliver(d, envs[..n]).state, envs[n]);
    }
  }

  // Payloads of a session are one interval apart: after one was handed to the radio, the next is
  // handed over by the first turn with a link at or after the interval's end, and by none before.
  lemma OffersAreSpaced(d: Delivery, e: Env, next: Env, elapsed: nat)
    requires WellFormed(d) && e.connected && next.connected && Step(d, e).offered.Some? && Step(d, e).state.pending
    requires elapsed < TWO_31 && next.nowMs == Wrap32(e.nowMs + elapsed)
    ensures var s := Step(d, e).state;
            Step(s, next).offered.Some? <==>
              next.turn && next.linked && Enabled(next.settings) && elapsed >= 1000 * e.settings.retransmissionSeconds &&
              s.cursor < |s.snapshot|
  {
    hide PacketOf, FirstSince;
    var s := Step(d, e).state;
    assert s.nextAt == Wrap32(e.nowMs + 1000 * e.settings.retransmissionSeconds);
    DistanceOf(e.nowMs + elapsed, e.nowMs + 1000 * e.settings.retransmissionSeconds);
  }
}
