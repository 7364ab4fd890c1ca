// The fieldbus master: one transaction at a time, whose response arrives byte by byte and is
// framed by the length it announces.
module RtuMaster {
  import opened Words
  import opened Channel
  import opened RtuCodec

  const RESPONSE_CAPACITY: int := 242

  datatype TransactionKind = Idle | Read | Write | Raw
  datatype PollResult = NothingToDo | Pending | Success | Failure

  // ---- framing, as a property of the bytes received so far ----

  // Where a response ends: not visible yet, after so many bytes, or never, because it
  // announces more than the buffer holds.
  datatype Extent = Open | Closed(length: nat) | TooLong

  function ReadExtent(s: seq<byte>): Extent {
    if |s| >= 2 && s[1] >= 0x80 then (if |s| >= 5 then Closed(5) else Open)
    else if |s| >= 3 then
      if s[2] + 5 > RESPONSE_CAPACITY then TooLong
      else if |s| >= s[2] + 5 then Closed(s[2] + 5)
      else Open
    else Open
  }

  function WriteExtent(s: seq<byte>): Extent {
    if |s| < 2 then Open
    else
      var length := if s[1] >= 0x80 then 5 else 8;
      if |s| >= length then Closed(length) else Open
  }

  // The value of expectedResponseLength_ after the bytes s.
  function ExpectedLength(kind: TransactionKind, s: seq<byte>): nat {
    match kind
    case Read => if |s| >= 2 && s[1] >= 0x80 then 5 else if |s| >= 3 then s[2] as int + 5 else 0
    case Write => if |s| < 2 then 0 else if s[1] >= 0x80 then 5 else 8
    case _ => 0
  }

  // One poll of a read transaction: `held` is what earlier polls kept, `queue` what the line
  // delivered since.
  datatype ReadPoll =
    | Waiting(held: seq<byte>)
    | Finished(outcome: ReadOutcome, left: seq<byte>)

  function PollOnce(fpu: Fpu, c: ChannelConfig, held: seq<byte>, queue: seq<byte>, timedOut: bool): ReadPoll {
    var s := held + queue;
    match ReadExtent(s)
    case TooLong => Finished(Fault(BufferTooSmall), s[Min(3, |s|)..])
    case Closed(length) => Finished(ReadResponse(fpu, c, s[..Min(length, |s|)]), s[Min(length, |s|)..])
    case Open =>
      if !timedOut then Waiting(s)
      else if s == [] then Finished(Fault(Truncated), [])
      else Finished(ReadResponse(fpu, c, s), [])
  }

  // A response polled chunk by chunk, before the timeout: the index of the poll that finishes
  // it, its outcome, and the bytes left in the line's queue at that moment.
  datatype Delivery = Undecided(held: seq<byte>) | Decided(poll: nat, outcome: ReadOutcome, left: seq<byte>)

  function PollChunks(fpu: Fpu, c: ChannelConfig, held: seq<byte>, chunks: seq<seq<byte>>): Delivery
    decreases |chunks|
  {
    if chunks == [] then Undecided(held)
    else match PollOnce(fpu, c, held, chunks[0], false)
      case Finished(outcome, left) => Decided(0, outcome, left)
      case Waiting(more) =>
        match PollChunks(fpu, c, more, chunks[1..])
        case Undecided(h) => Undecided(h)
        case Decided(k, outcome, left) => Decided(k + 1, outcome, left)
  }

  // Everything received when the first k chunks have arrived.
  function Received(held: seq<byte>, chunks: seq<seq<byte>>, k: nat): seq<byte>
    requires k <= |chunks|
    decreases k
  {
    if k == 0 then held else Received(held + chunks[0], chunks[1..], k - 1)
  }

  // More bytes never move the end of a response, and before its last byte it is open.
  lemma ExtentIsStable(s: seq<byte>, more: seq<byte>)
    ensures ReadExtent(s) != Open ==> ReadExtent(s + more) == ReadExtent(s)
    ensures ReadExtent(s).Closed? ==> 5 <= ReadExtent(s).length <= |s| && ReadExtent(s).length <= RESPONSE_CAPACITY
  {
  }

  lemma OpenBeforeEnd(s: seq<byte>, k: nat)
    requires k <= |s|
    requires match ReadExtent(s) case Closed(length) => k < length case TooLong => k < 3 case Open => true
    ensures ReadExtent(s[..k]) == Open
  {
  }

  lemma {:induction false} ReceivedGrows(held: seq<byte>, chunks: seq<seq<byte>>, k: nat)
    requires k <= |chunks|
    ensures held <= Received(held, chunks, k)
    decreases k
  {
    if k == 0 {
    } else {
      ReceivedGrows(held + chunks[0], chunks[1..], k - 1);
    }
  }

  // Main result, first half: however the bytes of a response are split over polls, the poll that
  // receives the last announced byte decides, with the verdict of the whole-frame decoder on
  // exactly the announced bytes; every earlier poll waits.
  lemma {:induction false} SplitDoesNotMatter(fpu: Fpu, c: ChannelConfig, held: seq<byte>, chunks: seq<seq<byte>>,
                                              s: seq<byte>, length: nat)
    requires s == Received(held, chunks, |chunks|)
    requires ReadExtent(held) == Open && ReadExtent(s) == Closed(length) && length <= |s|
    ensures var d := PollChunks(fpu, c, held, chunks);
            d.Decided? && d.poll < |chunks| && d.outcome == ReadResponse(fpu, c, s[..length]) &&
            |Received(held, chunks, d.poll)| < length <= |Received(held, chunks, d.poll + 1)| &&
            s[..length] + d.left == Received(held, chunks, d.poll + 1)
    decreases |chunks|
  {
    hide ReadResponse;
    if chunks == [] {
      assert false;
    } else {
      var first := held + chunks[0];
      ReceivedGrows(first, chunks[1..], |chunks| - 1);
      assert s == first + s[|first|..];
      ExtentIsStable(first, s[|first|..]);
      if ReadExtent(first) == Open {
        SplitDoesNotMatter(fpu, c, first, chunks[1..], s, length);
        var d := PollChunks(fpu, c, first, chunks[1..]);
        assert Received(held, chunks, d.poll + 1) == Received(first, chunks[1..], d.poll);
        assert Received(held, chunks, d.poll + 2) == Received(first, chunks[1..], d.poll + 1);
      } else {
        ClosedHere(fpu, c, held, chunks, length);
        assert s[..length] == first[..length];
      }
    }
  }

  lemma ClosedHere(fpu: Fpu, c: ChannelConfig, held: seq<byte>, chunks: seq<seq<byte>>, length: nat)
    requires chunks != [] && ReadExtent(held) == Open && ReadExtent(held + chunks[0]) == Closed(length)
    ensures length <= |held + chunks[0]|
    ensures var d := PollChunks(fpu, c, held, chunks);
            d.Decided? && d.poll == 0 && d.outcome == ReadResponse(fpu, c, (held + chunks[0])[..length]) &&
            (held + chunks[0])[..length] + d.left == held + chunks[0]
    ensures |Received(held, chunks, 0)| < length <= |Received(held, chunks, 1)|
  {
    hide ReadResponse;
    assert Received(held, chunks, 1) == Received(held + chunks[0], chunks[1..], 0) == held + chunks[0];
  }

  // Second half: as long as the announced end is not there, no poll decides.
  lemma {:induction false} NoDecisionBeforeEnd(fpu: Fpu, c: ChannelConfig, held: seq<byte>, chunks: seq<seq<byte>>)
    requires ReadExtent(Received(held, chunks, |chunks|)) == Open
    ensures PollChunks(fpu, c, held, chunks) == Undecided(Received(held, chunks, |chunks|))
    decreases |chunks|
  {
    if chunks == [] {
    } else {
      var first := held + chunks[0];
      var s := Received(held, chunks, |chunks|);
      ReceivedGrows(first, chunks[1..], |chunks| - 1);
      assert s == first + s[|first|..];
      ExtentIsStable(first, s[|first|..]);
      NoDecisionBeforeEnd(fpu, c, first, chunks[1..]);
    }
  }

  // In particular every poll waits until the announced length has arrived.
  lemma WaitsForAnnouncedLength(fpu: Fpu, c: ChannelConfig, held: seq<byte>, chunks: seq<seq<byte>>, s: seq<byte>, length: nat)
    requires ReadExtent(s) == Closed(length)
    requires Received(held, chunks, |chunks|) <= s && |Received(held, chunks, |chunks|)| < length
    ensures PollChunks(fpu, c, held, chunks) == Undecided(Received(held, chunks, |chunks|))
  {
    hide ReadExtent;
    var got := Received(held, chunks, |chunks|);
    OpenBeforeEnd(s, |got|);
    assert s[..|got|] == got;
    NoDecisionBeforeEnd(fpu, c, held, chunks);
  }

  // A poll sees the same thing whether it looks at all bytes at once or stops at the decision.
  lemma PollStopsAtDecision(fpu: Fpu, c: ChannelConfig, held: seq<byte>, queue: seq<byte>, timedOut: bool,
                            got: seq<byte>, rest: seq<byte>)
    requires got + rest == held + queue
    requires match ReadExtent(got) case Open => rest == [] case Closed(length) => length == |got| case TooLong => |got| == 3
    ensures PollOnce(fpu, c, held, queue, timedOut) ==
            match ReadExtent(got)
            case TooLong => Finished(Fault(BufferTooSmall), rest)
            case Closed(_) => Finished(ReadResponse(fpu, c, got), rest)
            case Open =>
              if !timedOut then Waiting(got)
              else if got == [] then Finished(Fault(Truncated), [])
              else Finished(ReadResponse(fpu, c, got), [])
  {
    hide ReadResponse;
    var s := held + queue;
    ExtentIsStable(got, rest);
    assert s[..|got|] == got && s[|got|..] == rest;
    assert rest == [] ==> s == got;
  }

  // The verdict a write transaction ends with, on the bytes received so far.
  datatype WritePoll =
    | WriteWaiting(held: seq<byte>)
    | WriteFinished(status: RtuStatus, code: byte, left: seq<byte>)

  function PollWriteOnce(c: ChannelConfig, index: byte, request: seq<byte>, held: seq<byte>, queue: seq<byte>, timedOut: bool): WritePoll {
    var s := held + queue;
    match WriteExtent(s)
    case Closed(length) =>
      var (status, code) := WriteResponse(c, index, request, s[..Min(length, |s|)]);
      WriteFinished(status, code, s[Min(length, |s|)..])
    case Open =>
      if !timedOut then WriteWaiting(s)
      else if s == [] then WriteFinished(Truncated, 0, [])
      else
        var (status, code) := WriteResponse(c, index, request, s);
        WriteFinished(status, code, [])
  }

  // The poll of a write sees the same thing whether it looks at all bytes or stops at the decision.
  lemma WriteStopsAtDecision(c: ChannelConfig, index: byte, request: seq<byte>, held: seq<byte>, queue: seq<byte>, timedOut: bool,
                             got: seq<byte>, rest: seq<byte>)
    requires got + rest == held + queue
    requires WriteExtent(got) == Closed(|got|) || (WriteExtent(got) == Open && rest == [])
    ensures WriteExtent(got).Closed? ==> got != []
    ensures PollWriteOnce(c, index, request, held, queue, timedOut) ==
            if WriteExtent(got) == Open && !timedOut then WriteWaiting(got)
            else if got == [] then WriteFinished(Truncated, 0, [])
            else var (status, code) := WriteResponse(c, index, request, got); WriteFinished(status, code, rest)
  {
    hide WriteResponse;
    var s := held + queue;
    assert s[..|got|] == got && s[|got|..] == rest;
    assert rest == [] ==> s == got;
    assert WriteExtent(got).Closed? ==> WriteExtent(s) == WriteExtent(got);
  }

  // A pass-through response ends when the line has been idle long enough, or at the timeout.
  datatype RawPoll =
    | RawWaiting(held: seq<byte>)
    | RawFinished(status: RtuStatus, payload: seq<byte>, left: seq<byte>)

  function PollRawOnce(held: seq<byte>, queue: seq<byte>, idle: bool, timedOut: bool, capacity: nat): RawPoll {
    var s := held + queue;
    if |s| > RESPONSE_CAPACITY then RawFinished(BufferTooSmall, [], s[RESPONSE_CAPACITY + 1..])
    else if !(s != [] && idle) && !timedOut then RawWaiting(s)
    else if s == [] then RawFinished(Truncated, [], [])
    else if capacity < |s| then RawFinished(BufferTooSmall, [], [])
    else RawFinished(Ok, s, [])
  }

  // ---- the transaction object ----

  class Master {
    const fpu: Fpu
    var started: bool
    var online: bool
    var transactionActive: bool
    var kind: TransactionKind
    var activeChannel: ChannelConfig
    var activeValueIndex: byte
    var activeRequest: seq<byte>
    var response: array<byte>
    var responseLength: nat
    var expectedLength: nat
    var startedAtMs: u32
    var baudRate: u32
    var timeoutMs: u32
    var successes: u32
    var failures: u32
    var lastStatus: RtuStatus
    var lastExceptionCode: byte
    var line: seq<byte>   // bytes waiting in the serial receive queue

    ghost predicate Valid()
      reads this, response
    {
      response.Length == RESPONSE_CAPACITY && responseLength <= RESPONSE_CAPACITY &&
      (transactionActive <==> kind != Idle) &&
      (transactionActive ==>
         lastExceptionCode == 0 && (kind != Raw ==> ValidChannelConfig(activeChannel)) &&
         expectedLength == ExpectedLength(kind, Held()) &&
         (kind == Read ==> ReadExtent(Held()) == Open) &&
         (kind == Write ==> WriteExtent(Held()) == Open))
    }

    // The bytes of the running transaction's response received by earlier polls.
    ghost function Held(): seq<byte>
      requires responseLength <= response.Length
      reads this, response
    {
      response[..responseLength]
    }

    constructor (fpu: Fpu)
      ensures Valid() && fresh(response) && this.fpu == fpu && baudRate == 9600 && timeoutMs == 500
      ensures !started && !transactionActive && line == [] && successes == 0 && failures == 0
    {
      this.fpu := fpu;
      started, online, transactionActive, kind := false, false, false, Idle;
      activeChannel := ChannelConfig(0, 1, 0, 0, 1, false, []);
      activeValueIndex, activeRequest := 0, [];
      response := new byte[RESPONSE_CAPACITY](_ => 0);
      responseLength, expectedLength, startedAtMs := 0, 0, 0;
      baudRate, timeoutMs := 9600, 500;
      successes, failures, lastStatus, lastExceptionCode, line := 0, 0, Truncated, 0, [];
    }

    // The part of the object that only transactions change.
    twostate predicate SettingsKept()
      reads this
    {
      response == old(response) && started == old(started) && baudRate == old(baudRate) && timeoutMs == old(timeoutMs)
    }

    // Opens the bus, unless the configuration has no baud rate or no response timeout.
    method Begin(baudRate: u32, timeoutMs: u32) returns (ok: bool)
      requires Valid()
      modifies this`started, this`baudRate, this`timeoutMs
      ensures Valid() && ok == (baudRate != 0 && timeoutMs != 0) && started == (ok || old(started))
      ensures this.baudRate == baudRate && this.timeoutMs == timeoutMs
    {
      this.baudRate, this.timeoutMs := baudRate, timeoutMs;
      if baudRate == 0 || timeoutMs == 0 { return false; }
      started := true;
      return true;
    }

    method Fail(status: RtuStatus)
      modifies this`lastStatus, this`online, this`failures
      ensures lastStatus == status && !online && failures == Wrap32(old(failures) + 1)
    {
      lastStatus := status;
      online := false;
      failures := Wrap32(failures + 1);
    }

    method CancelTransaction()
      requires Valid()
      modifies this
      ensures Valid() && SettingsKept() && !transactionActive && line == (if started then [] else old(line))
      ensures successes == old(successes) && failures == old(failures) && lastStatus == old(lastStatus)
           && lastExceptionCode == old(lastExceptionCode) && online == old(online)
    {
      transactionActive, kind := false, Idle;
      responseLength, expectedLength := 0, 0;
      if started { line := []; }
    }

    method Reconfigure(baudRate: u32, timeoutMs: u32) returns (ok: bool)
      requires Valid()
      modifies this
      ensures Valid() && response == old(response) && !transactionActive
      ensures ok == (baudRate != 0 && timeoutMs != 0) && started == ok && successes == old(successes) && failures == old(failures)
      ensures this.baudRate == baudRate && this.timeoutMs == timeoutMs
    {
      CancelTransaction();
      started := false;
      ok := Begin(baudRate, timeoutMs);
    }

    // The transaction opens, with nothing received yet.
    method OpenTransaction(kind: TransactionKind, channel: ChannelConfig, index: byte, request: seq<byte>, nowMs: u32)
      requires Valid() && !transactionActive && lastExceptionCode == 0
      requires ValidChannelConfig(channel) && (kind == Read || kind == Write)
      modifies this`activeChannel, this`activeValueIndex, this`activeRequest, this`responseLength, this`expectedLength,
               this`startedAtMs, this`kind, this`transactionActive
      ensures Valid() && transactionActive && this.kind == kind && activeChannel == channel && activeValueIndex == index
      ensures Held() == [] && activeRequest == request && startedAtMs == nowMs
    {
      activeChannel, activeValueIndex, activeRequest := channel, index, request;
      responseLength, expectedLength := 0, 0;
      startedAtMs := nowMs;
      this.kind, transactionActive := kind, true;
    }

    // The request goes out and the transaction opens, unless the serial driver did not take all
    // of the request.
    method Launch(kind: TransactionKind, channel: ChannelConfig, index: byte, request: seq<byte>, nowMs: u32, delivered: bool)
      requires Valid() && started && !transactionActive && lastExceptionCode == 0
      requires ValidChannelConfig(channel) && (kind == Read || kind == Write)
      modifies this
      ensures Valid() && SettingsKept() && line == [] && transactionActive == delivered && successes == old(successes)
      ensures delivered ==> this.kind == kind && activeChannel == channel && activeValueIndex == index && Held() == []
      ensures delivered ==> activeRequest == request && startedAtMs == nowMs && failures == old(failures)
      ensures !delivered ==> failures == Wrap32(old(failures) + 1)
    {
      line := [];
      if !delivered {
        Fail(Truncated);
        return;
      }
      OpenTransaction(kind, channel, index, request, nowMs);
    }

    // Starts a read. `delivered` says whether the serial driver took the whole request.
    method StartRead(channel: ChannelConfig, nowMs: u32, delivered: bool) returns (ok: bool)
      requires Valid()
      modifies this
      ensures Valid() && SettingsKept() && successes == old(successes)
      ensures ok == (started && !old(transactionActive) && ReadRequest(channel, 8).Frame? && delivered)
      ensures old(transactionActive) ==> StillRunning(old(Held())) && line == old(line)
      ensures ok ==> transactionActive && kind == Read && activeChannel == channel && Held() == [] && line == []
      ensures ok ==> activeRequest == ReadRequest(channel, 8).bytes && startedAtMs == nowMs && failures == old(failures)
      ensures !ok && !old(transactionActive) ==> !transactionActive && failures == Wrap32(old(failures) + 1)
    {
      hide ReadRequest;
      lastExceptionCode := 0;
      if !started || transactionActive || !ValidChannelConfig(channel) {
        if !transactionActive { Fail(InvalidConfig); }
        return false;
      }
      var request := new byte[8](_ => 0);
      var status, requestLength := BuildReadRequest(channel, request);
      if status != Ok {
        Fail(status);
        return false;
      }
      Launch(Read, channel, 0, request[..requestLength], nowMs, delivered);
      return delivered;
    }

    method StartWrite(channel: ChannelConfig, index: byte, value: Scalar, nowMs: u32, delivered: bool) returns (ok: bool)
      requires Valid()
      modifies this
      ensures Valid() && SettingsKept() && successes == old(successes)
      ensures ok == (started && !old(transactionActive) && WriteRequest(fpu, channel, index, value, 17).Frame? && delivered)
      ensures old(transactionActive) ==> StillRunning(old(Held())) && line == old(line)
      ensures ok ==> transactionActive && kind == Write && activeChannel == channel && activeValueIndex == index && Held() == []
      ensures ok ==> line == [] && activeRequest == WriteRequest(fpu, channel, index, value, 17).bytes
      ensures ok ==> startedAtMs == nowMs && failures == old(failures)
      ensures !ok && !old(transactionActive) ==> !transactionActive && failures == Wrap32(old(failures) + 1)
    {
      hide WriteRequest;
      lastExceptionCode := 0;
      if !started || transactionActive || !ValidChannelConfig(channel) {
        if !transactionActive { Fail(InvalidConfig); }
        return false;
      }
      var request := new byte[17](_ => 0);
      var status, requestLength := BuildWriteRequest(fpu, channel, index, value, request);
      if status != Ok {
        Fail(status);
        return false;
      }
      Launch(Write, channel, index, request[..requestLength], nowMs, delivered);
      return delivered;
    }

    // How a finished transaction is booked: ended, counted once, with its status.
    twostate predicate Booked(status: RtuStatus, code: byte, result: PollResult)
      reads this, response
    {
      Valid() && SettingsKept() && !transactionActive && lastStatus == status && lastExceptionCode == code &&
      (if status == Ok
       then result == Success && online && successes == Wrap32(old(successes) + 1) && failures == old(failures)
       else result == Failure && !online && successes == old(successes) && failures == Wrap32(old(failures) + 1))
    }

    twostate predicate StillRunning(held: seq<byte>)
      reads this, response
    {
      Valid() && SettingsKept() && transactionActive && kind == old(kind) && activeChannel == old(activeChannel) &&
      activeValueIndex == old(activeValueIndex) && activeRequest == old(activeRequest) && startedAtMs == old(startedAtMs) &&
      Held() == held && successes == old(successes) && failures == old(failures)
    }

    // Between the arrival of a byte and the decision it may bring, the extent may be closed.
    ghost predicate Receiving()
      reads this, response
    {
      response.Length == RESPONSE_CAPACITY && responseLength <= RESPONSE_CAPACITY && transactionActive &&
      lastExceptionCode == 0 && ValidChannelConfig(activeChannel) && (kind == Read || kind == Write) &&
      expectedLength == ExpectedLength(kind, Held())
    }

    method FinishFailure(status: RtuStatus)
      requires response.Length == RESPONSE_CAPACITY && lastExceptionCode == 0 && status != Ok
      modifies this
      ensures Booked(status, 0, Failure) && line == old(line)
    {
      transactionActive, kind := false, Idle;
      responseLength, expectedLength := 0, 0;
      Fail(status);
    }

    method FinishDecode(values: array<Scalar>) returns (result: PollResult, valueCount: byte)
      requires Receiving() && values.Length == 2
      modifies this, values
      ensures var outcome := old(ReadResponse(fpu, activeChannel, Held()));
              Reports(outcome, old(values[..]), values[..], lastStatus, valueCount, lastExceptionCode) &&
              Booked(lastStatus, lastExceptionCode, result) && line == old(line)
    {
      hide ReadResponse;
      var status, exceptionCode;
      status, valueCount, exceptionCode := DecodeReadResponse(fpu, activeChannel, response[..responseLength], values);
      lastExceptionCode := exceptionCode;
      transactionActive, kind := false, Idle;
      responseLength, expectedLength := 0, 0;
      if status != Ok {
        Fail(status);
        return Failure, valueCount;
      }
      lastStatus, online := Ok, true;
      successes := Wrap32(successes + 1);
      return Success, valueCount;
    }

    // What one poll of a read transaction leaves behind.
    twostate predicate ReadPolled(poll: ReadPoll, before: seq<Scalar>, values: array<Scalar>, result: PollResult, count: byte)
      requires |before| == values.Length == 2
      reads this, response, values
    {
      match poll
      case Waiting(held) => result == Pending && count == 0 && StillRunning(held) && line == [] && values[..] == before
      case Finished(outcome, left) =>
        Booked(lastStatus, lastExceptionCode, result) && line == left &&
        Reports(outcome, before, values[..], lastStatus, count, lastExceptionCode)
    }

    // One received byte, and the expected length it may announce.
    method TakeReadByte(raw: byte)
      requires Receiving() && kind == Read && ReadExtent(Held()) == Open && responseLength < RESPONSE_CAPACITY
      modifies this`responseLength, this`expectedLength, response
      ensures Receiving() && Held() == old(Held()) + [raw]
    {
      ghost var held := Held();
      response[responseLength] := raw;
      responseLength := responseLength + 1;
      assert Held() == held + [raw];
      if responseLength == 2 && response[1] >= 0x80 {
        expectedLength := 5;
      } else if responseLength == 3 && response[1] < 0x80 {
        expectedLength := response[2] as int + 5;
      }
    }

    // An open response always leaves room for its next byte.
    lemma OpenFits(s: seq<byte>)
      requires ReadExtent(s) == Open
      ensures |s| < RESPONSE_CAPACITY
    {
    }

    // The receive loop: bytes are taken until the response is decided or the line is empty.
    method ReceiveRead() returns (extent: Extent)
      requires Valid() && transactionActive && kind == Read
      modifies this`line, this`responseLength, this`expectedLength, response
      ensures Receiving() && Held() + line == old(Held() + line) && extent == ReadExtent(Held())
      ensures match extent
              case Open => line == []
              case Closed(length) => length == responseLength
              case TooLong => responseLength == 3
    {
      ghost var all := Held() + line;
      while |line| > 0
        invariant Receiving() && ReadExtent(Held()) == Open && Held() + line == all
        decreases |line|
      {
        OpenFits(Held());
        if responseLength >= RESPONSE_CAPACITY { assert false; }
        ghost var held := Held();
        assert held + line == (held + [line[0]]) + line[1..];
        var raw := line[0];
        line := line[1..];
        TakeReadByte(raw);
        if responseLength == 3 && response[1] < 0x80 && expectedLength > RESPONSE_CAPACITY { return TooLong; }
        if expectedLength != 0 && responseLength >= expectedLength { return Closed(responseLength); }
      }
      return Open;
    }

    method PollRead(values: array<Scalar>, nowMs: u32) returns (result: PollResult, valueCount: byte)
      requires Valid() && values.Length == 2
      modifies this, response, values
      ensures Valid() && SettingsKept()
      ensures !old(transactionActive) ==> result == NothingToDo && valueCount == 0 && !transactionActive && values[..] == old(values[..])
      ensures old(transactionActive) && old(kind) != Read ==>
                result == Failure && valueCount == 0 && StillRunning(old(Held())) && values[..] == old(values[..])
      ensures old(transactionActive) && old(kind) == Read ==>
                ReadPolled(old(PollOnce(fpu, activeChannel, Held(), line, Wrap32(nowMs - startedAtMs) >= timeoutMs)),
                           old(values[..]), values, result, valueCount)
    {
      hide ReadResponse, PollOnce, ReadExtent;
      if !transactionActive { return NothingToDo, 0; }
      if kind != Read { return Failure, 0; }
      ghost var held, queue := Held(), line;
      var extent := ReceiveRead();
      var timedOut := Wrap32(nowMs - startedAtMs) >= timeoutMs;
      PollStopsAtDecision(fpu, activeChannel, held, queue, timedOut, Held(), line);
      if extent == TooLong {
        FinishFailure(BufferTooSmall);
        return Failure, 0;
      }
      if extent == Open {
        if !timedOut { return Pending, 0; }
        if responseLength == 0 {
          FinishFailure(Truncated);
          return Failure, 0;
        }
      }
      result, valueCount := FinishDecode(values);
    }

    method FinishWriteDecode() returns (result: PollResult)
      requires Receiving() && kind == Write
      modifies this
      ensures var (status, code) := old(WriteResponse(activeChannel, activeValueIndex, activeRequest, Held()));
              Booked(status, code, result) && line == old(line)
    {
      hide WriteResponse;
      var (status, exceptionCode) := WriteResponse(activeChannel, activeValueIndex, activeRequest, response[..responseLength]);
      lastExceptionCode := exceptionCode;
      transactionActive, kind := false, Idle;
      responseLength, expectedLength := 0, 0;
      if status != Ok {
        Fail(status);
        return Failure;
      }
      lastStatus, online := Ok, true;
      successes := Wrap32(successes + 1);
      return Success;
    }

    method TakeWriteByte(raw: byte)
      requires Receiving() && kind == Write && WriteExtent(Held()) == Open && responseLength < RESPONSE_CAPACITY
      modifies this`responseLength, this`expectedLength, response
      ensures Receiving() && Held() == old(Held()) + [raw]
    {
      ghost var held := Held();
      response[responseLength] := raw;
      responseLength := responseLength + 1;
      assert Held() == held + [raw];
      if responseLength == 2 { expectedLength := if response[1] >= 0x80 then 5 else 8; }
    }

    method ReceiveWrite() returns (extent: Extent)
      requires Valid() && transactionActive && kind == Write
      modifies this`line, this`responseLength, this`expectedLength, response
      ensures Receiving() && Held() + line == old(Held() + line) && extent == WriteExtent(Held())
      ensures match extent
              case Open => line == []
              case Closed(length) => length == responseLength
              case TooLong => false
    {
      ghost var all := Held() + line;
      while |line| > 0
        invariant Receiving() && WriteExtent(Held()) == Open && Held() + line == all
        decreases |line|
      {
        if responseLength >= RESPONSE_CAPACITY { assert false; }
        ghost var held := Held();
        assert held + line == (held + [line[0]]) + line[1..];
        var raw := line[0];
        line := line[1..];
        TakeWriteByte(raw);
        if expectedLength != 0 && responseLength >= expectedLength { return Closed(responseLength); }
      }
      return Open;
    }

    method PollWrite(nowMs: u32) returns (result: PollResult)
      requires Valid()
      modifies this, response
      ensures Valid() && SettingsKept()
      ensures !old(transactionActive) ==> result == NothingToDo && !transactionActive
      ensures old(transactionActive) && old(kind) != Write ==> result == Failure && StillRunning(old(Held()))
      ensures old(transactionActive) && old(kind) == Write ==>
                match old(PollWriteOnce(activeChannel, activeValueIndex, activeRequest, Held(), line,
                                        Wrap32(nowMs - startedAtMs) >= timeoutMs))
                case WriteWaiting(held) => result == Pending && StillRunning(held) && line == []
                case WriteFinished(status, code, left) => Booked(status, code, result) && line == left
    {
      hide WriteResponse, PollWriteOnce, WriteExtent;
      if !transactionActive { return NothingToDo; }
      if kind != Write { return Failure; }
      ghost var held, queue := Held(), line;
      var extent := ReceiveWrite();
      var timedOut := Wrap32(nowMs - startedAtMs) >= timeoutMs;
      WriteStopsAtDecision(activeChannel, activeValueIndex, activeRequest, held, queue, timedOut, Held(), line);
      if extent == Open {
        if !timedOut { return Pending; }
        if responseLength == 0 {
          FinishFailure(Truncated);
          return Failure;
        }
      }
      result := FinishWriteDecode();
    }

    method StartRaw(payload: seq<byte>, nowMs: u32, delivered: bool) returns (ok: bool)
      requires Valid()
      modifies this
      ensures Valid() && SettingsKept() && successes == old(successes)
      ensures ok == (started && !old(transactionActive) && 0 < |payload| <= 242 && delivered)
      ensures old(transactionActive) ==> StillRunning(old(Held())) && line == old(line)
      ensures ok ==> transactionActive && kind == Raw && Held() == [] && activeRequest == payload && failures == old(failures)
      ensures !ok && !old(transactionActive) ==> !transactionActive && failures == Wrap32(old(failures) + 1)
    {
      lastExceptionCode := 0;
      if !started || transactionActive || |payload| == 0 || |payload| > 242 {
        if !transactionActive { Fail(InvalidConfig); }
        return false;
      }
      line := [];
      if !delivered {
        Fail(Truncated);
        return false;
      }
      activeRequest := payload;
      responseLength, expectedLength := 0, 0;
      startedAtMs := nowMs;
      kind, transactionActive := Raw, true;
      return true;
    }

    method ReceiveRaw() returns (fits: bool)
      requires Valid() && transactionActive && kind == Raw
      modifies this`line, this`responseLength, response
      ensures responseLength <= RESPONSE_CAPACITY && Held() <= old(Held() + line)
      ensures fits == (|old(Held() + line)| <= RESPONSE_CAPACITY)
      ensures if fits then Held() == old(Held() + line) && line == []
              else line == old(Held() + line)[RESPONSE_CAPACITY + 1..]
    {
      ghost var all := Held() + line;
      while |line| > 0
        invariant responseLength <= RESPONSE_CAPACITY && Held() + line == all
        decreases |line|
      {
        ghost var held := Held();
        assert held + line == (held + [line[0]]) + line[1..];
        var raw := line[0];
        line := line[1..];
        if responseLength >= RESPONSE_CAPACITY { return false; }
        response[responseLength] := raw;
        responseLength := responseLength + 1;
        assert Held() == held + [raw];
      }
      return true;
    }

    method FinishRaw() returns (result: PollResult, payload: seq<byte>)
      requires Valid() && lastExceptionCode == 0
      modifies this
      ensures payload == old(Held()) && Booked(Ok, 0, result) && line == old(line)
    {
      payload := response[..responseLength];
      transactionActive, kind := false, Idle;
      responseLength, expectedLength := 0, 0;
      lastStatus, online := Ok, true;
      successes := Wrap32(successes + 1);
      return Success, payload;
    }

    method PollRaw(idle: bool, nowMs: u32, capacity: nat) returns (result: PollResult, payload: seq<byte>)
      requires Valid()
      modifies this, response
      ensures Valid() && SettingsKept()
      ensures !old(transactionActive) ==> result == NothingToDo && !transactionActive
      ensures old(transactionActive) && old(kind) != Raw ==> result == Failure && StillRunning(old(Held()))
      ensures old(transactionActive) && old(kind) == Raw ==>
                match old(PollRawOnce(Held(), line, idle, Wrap32(nowMs - startedAtMs) >= timeoutMs, capacity))
                case RawWaiting(held) => result == Pending && StillRunning(held) && line == []
                case RawFinished(status, bytes, left) => Booked(status, 0, result) && payload == bytes && line == left
    {
      payload := [];
      if !transactionActive { return NothingToDo, []; }
      if kind != Raw { return Failure, []; }
      var fits := ReceiveRaw();
      if !fits {
        FinishFailure(BufferTooSmall);
        return Failure, [];
      }
      var timedOut := Wrap32(nowMs - startedAtMs) >= timeoutMs;
      if !(responseLength > 0 && idle) && !timedOut { return Pending, []; }
      if responseLength == 0 {
        FinishFailure(Truncated);
        return Failure, [];
      }
      if capacity < responseLength {
        FinishFailure(BufferTooSmall);
        return Failure, [];
      }
      result, payload := FinishRaw();
    }
  }
}
