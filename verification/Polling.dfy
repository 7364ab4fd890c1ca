// What the polling component knows: its channel list, the cache of their latest values, whose turn
// it is, and the poll result waiting to be collected. Every operation keeps them coherent.
module Polling {
  import opened Words
  import opened Channel
  import opened RtuCodec

  // The latest values of a slot.
  datatype Cache = Cache(valid: bool, count: byte, values: seq<Scalar>, updatedAt: u32, status: RtuStatus, code: byte)

  const NO_VALUES: seq<Scalar> := [Unsigned(0), Unsigned(0)]
  const EMPTY_CACHE: Cache := Cache(false, 0, NO_VALUES, 0, Truncated, 0)

  datatype Completion = Completion(
    channel: ChannelConfig, success: bool, count: byte, values: seq<Scalar>, status: RtuStatus, code: byte, at: u32)

  datatype Poller = Poller(
    channels: seq<ChannelConfig>, cache: seq<Cache>, index: nat, retries: byte, completion: Option<Completion>)

  // ---- the channel list ----

  predicate Distinct(channels: seq<ChannelConfig>) {
    forall i, j :: 0 <= i < j < |channels| ==> channels[i].slot != channels[j].slot
  }

  function Find(channels: seq<ChannelConfig>, slot: byte): (c: Option<ChannelConfig>)
    ensures c.Some? ==> c.value in channels && c.value.slot == slot
  {
    if channels == [] then None else if channels[0].slot == slot then Some(channels[0]) else Find(channels[1..], slot)
  }

  // Where a slot is in the list; its length if it is not there.
  function Position(channels: seq<ChannelConfig>, slot: byte): (k: nat)
    ensures k <= |channels| && (k < |channels| ==> channels[k].slot == slot)
    ensures forall i :: 0 <= i < k ==> channels[i].slot != slot
    ensures Find(channels, slot) == if k < |channels| then Some(channels[k]) else None
  {
    if channels == [] || channels[0].slot == slot then 0 else 1 + Position(channels[1..], slot)
  }

  function Upserted(channels: seq<ChannelConfig>, c: ChannelConfig): seq<ChannelConfig> {
    var k := Position(channels, c.slot);
    if k < |channels| then channels[k := c] else channels + [c]
  }

  function Removed(channels: seq<ChannelConfig>, slot: byte): seq<ChannelConfig> {
    var k := Position(channels, slot);
    if k < |channels| then channels[..k] + channels[k + 1..] else channels
  }

  function Renamed(channels: seq<ChannelConfig>, slot: byte, name: seq<byte>): seq<ChannelConfig> {
    var k := Position(channels, slot);
    if k < |channels| then channels[k := channels[k].(name := name)] else channels
  }

  // With distinct slots, a channel is found exactly where it is.
  lemma FindAt(channels: seq<ChannelConfig>, k: nat)
    requires k < |channels| && Distinct(channels)
    ensures Find(channels, channels[k].slot) == Some(channels[k])
  {
    assert Position(channels, channels[k].slot) <= k;
  }

  lemma FindNone(channels: seq<ChannelConfig>, slot: byte)
    requires forall k :: 0 <= k < |channels| ==> channels[k].slot != slot
    ensures Find(channels, slot) == None
  {
    assert Position(channels, slot) == |channels|;
  }

  // ---- coherence ----

  // A valid cache entry is a complete reading of a configured channel, of that channel's kind.
  predicate Backed(channels: seq<ChannelConfig>, slot: byte, entry: Cache) {
    |entry.values| == 2 && entry.count <= 2 &&
    (entry.valid ==> Find(channels, slot).Some? && ReadingOf(Find(channels, slot).value, entry.values[..entry.count]))
  }

  predicate Genuine(c: Completion) {
    |c.values| == 2 && c.count <= 2 && ValidChannelConfig(c.channel) &&
    (c.success ==> ReadingOf(c.channel, c.values[..c.count])) && (!c.success ==> c.count == 0)
  }

  predicate Coherent(p: Poller) {
    |p.cache| == 32 && Distinct(p.channels) &&
    (forall k :: 0 <= k < |p.channels| ==> ValidChannelConfig(p.channels[k])) &&
    (if p.channels == [] then p.index == 0 else p.index < |p.channels|) &&
    (forall slot :: 0 <= slot < 32 ==> Backed(p.channels, slot, p.cache[slot])) &&
    (p.completion.Some? ==> Genuine(p.completion.value))
  }

  // ---- operations on the channel list ----

  // `cancelled` says whether the edit cancelled a transaction.
  function UpsertOf(p: Poller, c: ChannelConfig, cancelled: bool): Poller
    requires |p.cache| == 32
  {
    if !ValidChannelConfig(c) then p
    else p.(channels := Upserted(p.channels, c), cache := p.cache[c.slot := EMPTY_CACHE],
            retries := if cancelled then 0 else p.retries)
  }

  function RemoveOf(p: Poller, slot: byte, cancelled: bool): Poller
    requires |p.cache| == 32
  {
    var kept := Removed(p.channels, slot);
    if Find(p.channels, slot).None? then p.(retries := if cancelled then 0 else p.retries)
    else p.(channels := kept, cache := if slot < 32 then p.cache[slot := EMPTY_CACHE] else p.cache,
            index := if p.index >= |kept| then 0 else p.index,
            retries := 0,
            completion := if p.completion.Some? && p.completion.value.channel.slot == slot then None else p.completion)
  }

  function RenameOf(p: Poller, slot: byte, name: seq<byte>): Poller {
    if |name| > MAX_NAME_LENGTH then p else p.(channels := Renamed(p.channels, slot, name))
  }

  lemma UpsertedFinds(channels: seq<ChannelConfig>, c: ChannelConfig, slot: byte)
    requires Distinct(channels)
    ensures Distinct(Upserted(channels, c))
    ensures Find(Upserted(channels, c), slot) == if slot == c.slot then Some(c) else Find(channels, slot)
  {
    hide Find, Position;
    var after, k := Upserted(channels, c), Position(channels, c.slot);
    assert after[k] == c;
    var at := Position(channels, slot);
    if slot == c.slot {
      FindAt(after, k);
    } else if at < |channels| {
      assert after[at] == channels[at];
      FindAt(after, at);
    } else {
      FindNone(after, slot);
    }
  }

  lemma RemovedFinds(channels: seq<ChannelConfig>, gone: byte, slot: byte)
    requires Distinct(channels)
    ensures Distinct(Removed(channels, gone))
    ensures Find(Removed(channels, gone), slot) == if slot == gone then None else Find(channels, slot)
  {
    hide Find, Position;
    var after, k, at := Removed(channels, gone), Position(channels, gone), Position(channels, slot);
    if k < |channels| {
      forall i | 0 <= i < |after|
        ensures after[i] == channels[if i < k then i else i + 1]
      {
      }
      if slot != gone && at < |channels| {
        assert after[if at < k then at else at - 1] == channels[at];
        FindAt(after, if at < k then at else at - 1);
      } else {
        FindNone(after, slot);
      }
    }
  }

  lemma RenamedFinds(channels: seq<ChannelConfig>, renamed: byte, name: seq<byte>, slot: byte)
    requires Distinct(channels)
    ensures Distinct(Renamed(channels, renamed, name))
    ensures Find(Renamed(channels, renamed, name), slot)
         == match Find(channels, slot)
            case None => None
            case Some(c) => Some(if slot == renamed then c.(name := name) else c)
  {
    var after, at := Renamed(channels, renamed, name), Position(channels, slot);
    if at < |channels| { FindAt(after, at); } else { FindNone(after, slot); }
  }

  lemma UpsertKeepsCoherent(p: Poller, c: ChannelConfig, cancelled: bool)
    requires Coherent(p)
    ensures Coherent(UpsertOf(p, c, cancelled))
  {
    hide Find, Position;
    var after := UpsertOf(p, c, cancelled);
    forall slot | 0 <= slot < 32
      ensures ValidChannelConfig(c) ==> Distinct(after.channels) && Backed(after.channels, slot, after.cache[slot])
    {
      UpsertedFinds(p.channels, c, slot);
      assert Backed(p.channels, slot, p.cache[slot]);
    }
    assert 0 <= c.slot < 32 ==> Distinct(Upserted(p.channels, c)) by { UpsertedFinds(p.channels, c, 0); }
  }

  lemma RemoveKeepsCoherent(p: Poller, gone: byte, cancelled: bool)
    requires Coherent(p)
    ensures Find(p.channels, gone).Some? ==> gone < 32
    ensures Coherent(RemoveOf(p, gone, cancelled))
  {
    hide Find, Position;
    var after := RemoveOf(p, gone, cancelled);
    RemovedFinds(p.channels, gone, 0);
    forall slot | 0 <= slot < 32
      ensures Backed(after.channels, slot, after.cache[slot])
    {
      RemovedFinds(p.channels, gone, slot);
      assert Backed(p.channels, slot, p.cache[slot]);
    }
  }

  lemma RenameKeepsCoherent(p: Poller, renamed: byte, name: seq<byte>)
    requires Coherent(p)
    ensures Coherent(RenameOf(p, renamed, name))
  {
    hide Find, Position;
    var after := RenameOf(p, renamed, name);
    RenamedFinds(p.channels, renamed, name, 0);
    forall slot | 0 <= slot < 32
      ensures Backed(after.channels, slot, after.cache[slot])
    {
      RenamedFinds(p.channels, renamed, name, slot);
      assert Backed(p.channels, slot, p.cache[slot]);
    }
  }

  // ---- poll attempts ----

  datatype Outcome = Good(count: byte, values: seq<Scalar>, at: u32) | Bad(status: RtuStatus, code: byte, at: u32)

  // An outcome the master can report for a channel.
  predicate Plausible(c: ChannelConfig, o: Outcome) {
    o.Good? ==> |o.values| == 2 && o.count <= 2 && ReadingOf(c, o.values[..o.count])
  }

  function FailedPoll(c: ChannelConfig, o: Outcome): Completion
    requires o.Bad?
  {
    Completion(c, false, 0, NO_VALUES, o.status, o.code, o.at)
  }

  function GoodPoll(c: ChannelConfig, o: Outcome): Completion
    requires o.Good? && |o.values| == 2
  {
    Completion(c, true, o.count, [if o.count > 0 then o.values[0] else Unsigned(0), if o.count > 1 then o.values[1] else Unsigned(0)],
               Ok, 0, o.at)
  }

  // The channel whose turn it is was tried: its result is kept and published and the turn passes
  // on, unless it failed and may be tried again.
  function FinishOf(p: Poller, o: Outcome, maxRetries: byte): Poller
    requires Coherent(p) && p.channels != [] && Plausible(p.channels[p.index], o)
  {
    var c := p.channels[p.index];
    var entry, next := p.cache[c.slot], (p.index + 1) % |p.channels|;
    match o
    case Good(count, values, at) =>
      var kept := Cache(true, count, [values[0], if count > 1 then values[1] else entry.values[1]], at, Ok, 0);
      p.(cache := p.cache[c.slot := kept], index := next, retries := 0, completion := Some(GoodPoll(c, o)))
    case Bad(status, code, at) =>
      var failed := entry.(status := status, code := code);
      if p.retries < maxRetries then p.(cache := p.cache[c.slot := failed], retries := p.retries + 1)
      else p.(cache := p.cache[c.slot := failed.(valid := false, count := 0)], index := next, retries := 0,
              completion := Some(FailedPoll(c, o)))
  }

  lemma FinishKeepsCoherent(p: Poller, o: Outcome, maxRetries: byte)
    requires Coherent(p) && p.channels != [] && Plausible(p.channels[p.index], o)
    ensures Coherent(FinishOf(p, o, maxRetries))
  {
    hide Find;
    var after, c := FinishOf(p, o, maxRetries), p.channels[p.index];
    FindAt(p.channels, p.index);
    forall slot | 0 <= slot < 32
      ensures Backed(after.channels, slot, after.cache[slot])
    {
      assert Backed(p.channels, slot, p.cache[slot]);
      if slot == c.slot && o.Good? { SameReading(c, o.values, after.cache[slot].values, o.count); }
    }
    if o.Good? { SameReading(c, o.values, GoodPoll(c, o).values, o.count); }
  }

  lemma SameReading(c: ChannelConfig, a: seq<Scalar>, b: seq<Scalar>, count: byte)
    requires count <= |a| == |b| == 2 && ReadingOf(c, a[..count]) && (forall k :: 0 <= k < count ==> a[k] == b[k])
    ensures ReadingOf(c, b[..count])
  {
    assert a[..count] == b[..count];
  }

  // ---- writes ----

  datatype WriteJob = WriteJob(channel: ChannelConfig, registerIndex: byte, value: Scalar)

  // A write meant for a channel as it is configured now, with a value of the channel's kind.
  predicate Fits(channels: seq<ChannelConfig>, w: WriteJob) {
    var c := Find(channels, w.channel.slot);
    c.Some? && SameButName(w.channel, c.value) && ValidChannelConfig(w.channel) && w.registerIndex < w.channel.quantity &&
    KindMatches(w.channel, w.value)
  }

  // A confirmed write goes into the cache where there is a complete reading; otherwise the next
  // poll brings the value.
  function WriteThroughOf(p: Poller, w: WriteJob, now: u32): Poller
    requires Coherent(p) && Fits(p.channels, w)
  {
    var slot := w.channel.slot;
    var entry := p.cache[slot];
    if !entry.valid || entry.count != w.channel.quantity then p.(cache := p.cache[slot := entry.(valid := false, count := 0)])
    else p.(cache := p.cache[slot := Cache(true, entry.count, entry.values[w.registerIndex := w.value], now, Ok, 0)])
  }

  lemma WriteThroughKeepsCoherent(p: Poller, w: WriteJob, now: u32)
    requires Coherent(p) && Fits(p.channels, w)
    ensures Coherent(WriteThroughOf(p, w, now))
  {
    hide Find;
    var after := WriteThroughOf(p, w, now);
    forall slot | 0 <= slot < 32
      ensures Backed(p.channels, slot, after.cache[slot])
    {
      assert Backed(p.channels, slot, p.cache[slot]);
    }
  }

  // What a point reads as.
  function PointOf(p: Poller, slot: byte, registerIndex: byte): Option<Scalar>
    requires Coherent(p)
  {
    var c := Find(p.channels, slot);
    if c.None? || registerIndex >= c.value.quantity || slot >= 32 then None
    else
      var entry := p.cache[slot];
      if !entry.valid || registerIndex >= entry.count then None else Some(entry.values[registerIndex])
  }

  // A point that reads at all reads as a value of its channel's kind, and a readable channel is
  // readable at every register position.
  lemma PointsAreWhole(p: Poller, slot: byte, registerIndex: byte)
    requires Coherent(p) && PointOf(p, slot, registerIndex).Some?
    ensures var c := Find(p.channels, slot).value;
            KindMatches(c, PointOf(p, slot, registerIndex).value) &&
            forall k :: 0 <= k < c.quantity ==> PointOf(p, slot, k).Some?
  {
    hide Find;
    assert Backed(p.channels, slot, p.cache[slot]);
    assert p.cache[slot].values[registerIndex] == p.cache[slot].values[..p.cache[slot].count][registerIndex];
  }

  // After a confirmed write every readable point reads as before, except the written one, which
  // reads as the written value.
  lemma WriteIsReadBack(p: Poller, w: WriteJob, now: u32, slot: byte, registerIndex: byte)
    requires Coherent(p) && Fits(p.channels, w)
    ensures var after := WriteThroughOf(p, w, now);
            Coherent(after) &&
            PointOf(after, slot, registerIndex)
            == if slot == w.channel.slot && registerIndex == w.registerIndex && PointOf(p, slot, registerIndex).Some?
               then Some(w.value) else PointOf(p, slot, registerIndex)
  {
    hide Find;
    WriteThroughKeepsCoherent(p, w, now);
    if slot < 32 { assert Backed(p.channels, slot, p.cache[slot]); }
  }

  // ---- runs of poll attempts ----

  // The polls published by a run of attempts, and the state after it.
  datatype Polls = Polls(state: Poller, published: seq<Completion>)

  predicate PlausibleRun(p: Poller, outcomes: seq<Outcome>, maxRetries: byte)
    requires Coherent(p) && p.channels != []
    decreases |outcomes|
  {
    outcomes != [] ==>
      Plausible(p.channels[p.index], outcomes[0]) &&
      var next := FinishOf(p, outcomes[0], maxRetries);
      Coherent(next) && PlausibleRun(next, outcomes[1..], maxRetries)
  }

  function RunOf(p: Poller, outcomes: seq<Outcome>, maxRetries: byte): Polls
    requires Coherent(p) && p.channels != [] && PlausibleRun(p, outcomes, maxRetries)
    decreases |outcomes|
  {
    if outcomes == [] then Polls(p, [])
    else
      var next := FinishOf(p, outcomes[0], maxRetries);
      var later := RunOf(next, outcomes[1..], maxRetries);
      Polls(later.state, (if Publishes(p, outcomes[0], maxRetries) then [next.completion.value] else []) + later.published)
  }

  predicate Publishes(p: Poller, o: Outcome, maxRetries: byte) {
    o.Good? || p.retries >= maxRetries
  }

  // The channel whose turn comes k turns from now.
  function TurnAfter(p: Poller, k: nat): ChannelConfig
    requires p.channels != []
  {
    p.channels[(p.index + k) % |p.channels|]
  }

  // The attempts that n channels may cost together.
  function Budget(n: nat, maxRetries: byte): nat {
    if n == 0 then 0 else Budget(n - 1, maxRetries) + maxRetries + 1
  }

  lemma {:induction false} BudgetGrows(n: nat, m: nat, maxRetries: byte)
    requires n < m
    ensures Budget(n, maxRetries) + maxRetries < Budget(m, maxRetries)
  {
    if n + 1 == m {
    } else {
      BudgetGrows(n, m - 1, maxRetries);
    }
  }

  // The published polls are those of the channels in turn, and the attempts they cost are
  // accounted for by the retry limit.
  predicate GoesRound(p: Poller, attempts: nat, r: Polls, maxRetries: byte)
    requires p.channels != []
  {
    r.state.channels == p.channels && r.state.retries <= maxRetries &&
    (forall k :: 0 <= k < |r.published| ==> r.published[k].channel == TurnAfter(p, k)) &&
    |r.published| <= attempts <= Budget(|r.published|, maxRetries) + r.state.retries - p.retries
  }

  // Main result: whatever fails, the published polls go round the channels in order.
  lemma {:induction false} PollsGoRound(p: Poller, outcomes: seq<Outcome>, maxRetries: byte)
    requires Coherent(p) && p.channels != [] && PlausibleRun(p, outcomes, maxRetries) && p.retries <= maxRetries
    ensures GoesRound(p, |outcomes|, RunOf(p, outcomes, maxRetries), maxRetries)
    decreases |outcomes|
  {
    hide Coherent, GoesRound, FinishOf, Plausible;
    if outcomes == [] {
      NothingGoesRound(p, maxRetries);
    } else {
      var next := FinishOf(p, outcomes[0], maxRetries);
      FinishPassesTurn(p, outcomes[0], maxRetries);
      PollsGoRound(next, outcomes[1..], maxRetries);
      var later := RunOf(next, outcomes[1..], maxRetries);
      if Publishes(p, outcomes[0], maxRetries) {
        PublishGoesRound(p, next, next.completion.value, |outcomes| - 1, later, maxRetries);
      } else {
        RetryGoesRound(p, next, |outcomes| - 1, later, maxRetries);
        assert [] + later.published == later.published;
      }
    }
  }

  lemma NothingGoesRound(p: Poller, maxRetries: byte)
    requires p.channels != [] && p.retries <= maxRetries
    ensures GoesRound(p, 0, Polls(p, []), maxRetries)
  {
  }

  lemma FinishPassesTurn(p: Poller, o: Outcome, maxRetries: byte)
    requires Coherent(p) && p.channels != [] && Plausible(p.channels[p.index], o) && p.retries <= maxRetries
    ensures var next := FinishOf(p, o, maxRetries);
            next.channels == p.channels && next.retries <= maxRetries && p.index < |p.channels| &&
            (if Publishes(p, o, maxRetries)
             then next.index == (p.index + 1) % |p.channels| && next.retries == 0 &&
                  next.completion.Some? && next.completion.value.channel == p.channels[p.index]
             else next.index == p.index && next.retries == p.retries + 1)
  {
  }

  lemma RetryGoesRound(p: Poller, next: Poller, attempts: nat, later: Polls, maxRetries: byte)
    requires p.channels != [] && next.channels == p.channels && next.index == p.index && next.retries == p.retries + 1
    requires GoesRound(next, attempts, later, maxRetries)
    ensures GoesRound(p, attempts + 1, later, maxRetries)
  {
    hide Budget;
    forall k: nat
      ensures TurnAfter(next, k) == TurnAfter(p, k)
    {
    }
  }

  lemma PublishGoesRound(p: Poller, next: Poller, c: Completion, attempts: nat, later: Polls, maxRetries: byte)
    requires p.index < |p.channels| && p.retries <= maxRetries && next.channels == p.channels
    requires next.index == (p.index + 1) % |p.channels| && next.retries == 0 && c.channel == p.channels[p.index]
    requires GoesRound(next, attempts, later, maxRetries)
    ensures GoesRound(p, attempts + 1, Polls(later.state, [c] + later.published), maxRetries)
  {
    hide TurnAfter;
    var published := [c] + later.published;
    assert Budget(|published|, maxRetries) == Budget(|later.published|, maxRetries) + maxRetries + 1;
    hide Budget;
    ThisTurn(p);
    forall k | 0 <= k < |published|
      ensures published[k].channel == TurnAfter(p, k)
    {
      if k > 0 {
        NextTurn(p, next, k - 1);
        assert published[k] == later.published[k - 1];
      }
    }
  }

  lemma ThisTurn(p: Poller)
    requires p.index < |p.channels|
    ensures TurnAfter(p, 0) == p.channels[p.index]
  {
  }

  lemma NextTurn(p: Poller, next: Poller, k: nat)
    requires p.channels != [] && next.channels == p.channels && next.index == (p.index + 1) % |p.channels|
    ensures TurnAfter(next, k) == TurnAfter(p, k + 1)
  {
    AddAfterRemainder(p.index + 1, k, |p.channels|);
  }

  lemma AddAfterRemainder(a: nat, k: nat, n: nat)
    requires n > 0
    ensures (a % n + k) % n == (a + k) % n
  {
    var q, r := (a % n + k) / n, (a % n + k) % n;
    assert a == a / n * n + a % n && a % n + k == q * n + r;
    Distribute(a / n, q, n);
    RemainderOf(a + k, a / n + q, r, n);
  }

  lemma Distribute(x: nat, y: nat, n: nat)
    ensures (x + y) * n == x * n + y * n
  {
  }

  lemma RemainderOf(x: nat, q: nat, r: nat, n: nat)
    requires r < n && x == q * n + r
    ensures x % n == r
  {
    var d := x / n - q;
    assert x == x / n * n + x % n;
    assert d * n == r - x % n;
    MultipleIsBig(d, n);
  }

  lemma MultipleIsBig(d: int, n: nat)
    ensures d >= 1 ==> d * n >= n
    ensures d <= -1 ==> d * n + n <= 0
  {
    if d >= 1 { assert (d - 1) * n >= 0; } else if d <= -1 { assert (-d - 1) * n >= 0; }
  }

  // No channel starves: as many attempts as all channels may cost together publish a poll of
  // each of them.
  lemma NoChannelStarves(p: Poller, outcomes: seq<Outcome>, maxRetries: byte, i: nat)
    requires Coherent(p) && p.channels != [] && PlausibleRun(p, outcomes, maxRetries) && p.retries <= maxRetries
    requires |outcomes| >= Budget(|p.channels|, maxRetries) && i < |p.channels|
    ensures exists k :: 0 <= k < |RunOf(p, outcomes, maxRetries).published| &&
                        RunOf(p, outcomes, maxRetries).published[k].channel == p.channels[i]
  {
    hide PlausibleRun, RunOf, Budget;
    PollsGoRound(p, outcomes, maxRetries);
    var published, n := RunOf(p, outcomes, maxRetries).published, |p.channels|;
    if |published| < n { BudgetGrows(|published|, n, maxRetries); }
    var k := if i >= p.index then i - p.index else i + n - p.index;
    TurnComes(p, i, k);
    assert published[k].channel == p.channels[i];
  }

  lemma TurnComes(p: Poller, i: nat, k: nat)
    requires p.index < |p.channels| && i < |p.channels|
    requires k == if i >= p.index then i - p.index else i + |p.channels| - p.index
    ensures TurnAfter(p, k) == p.channels[i]
  {
    if i < p.index { RemainderOf(p.index + k, 1, i, |p.channels|); }
  }
}
