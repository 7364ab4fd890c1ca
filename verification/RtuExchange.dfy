// Which requests can be built, and what the verdict on an answer tells about the server that gave
// it: an accepted answer is exactly the conforming one, and an accepted write was executed.
module RtuExchange {
  import opened Words
  import opened Channel
  import opened Crc
  import opened RtuCodec
  import opened WireTypes
  import opened RtuDevice
  import opened RtuMaster

  // ---- which requests there are ----

  // The bits or registers that a channel spans.
  function Span(c: ChannelConfig): (n: nat)
    requires ValidChannelConfig(c)
    ensures n <= 8
  {
    Registers(TypeOf(c.dataType)) * c.quantity
  }

  // A read request is built exactly for a valid channel inside its bank, with room for 8 bytes.
  lemma ReadsAreBuiltExactlyWhen(c: ChannelConfig, capacity: nat)
    ensures ReadRequest(c, capacity).Frame? <==>
              ValidChannelConfig(c) && capacity >= 8 && c.address + Span(c) <= 0x10000
    ensures ReadRequest(c, capacity).Frame? ==>
              ReadRequest(c, capacity).bytes == WithCrc([c.slaveId, ReadFunction(TypeOf(c.dataType).bank)] + Be16(c.address)
                                                        + Be16(Span(c)))
  {
    hide TypeOf;
    if ValidWireDataType(c.dataType) { CodecFollowsNames(c.dataType); }
  }

  // A value fits a register type exactly when the register can read as it; a float of the type's
  // kind always fits.
  lemma ValueFitsExactlyWhenReadable(fpu: Fpu, c: ChannelConfig, v: Scalar)
    requires ValidChannelConfig(c) && WritableType(c.dataType) && c.dataType != 0x00
    ensures WireValue(fpu, c, v).Some? <==>
            if TypeOf(c.dataType).format.Float? then v.Floating?
            else exists raw :: |raw| == BytesPerValue(c.dataType) && RegisterValue(fpu, c, raw) == v
  {
    CodecFollowsNames(c.dataType);
    hide TypeOf, RegisterValue, Ordered;
    if !TypeOf(c.dataType).format.Float? {
      if WireValue(fpu, c, v).Some? {
        RegisterValueRoundTrip(fpu, c, v);
        assert RegisterValue(fpu, c, WireValue(fpu, c, v).value) == v;
      }
      hide WireValue;
      forall raw: seq<byte> | |raw| == BytesPerValue(c.dataType) && RegisterValue(fpu, c, raw) == v
        ensures WireValue(fpu, c, v).Some?
      {
        WriteBackIsIdentity(fpu, c, raw);
      }
    }
  }

  // With room for the longest frame, a write request is built exactly for a position of a writable
  // channel inside its bank and a value that fits: a truth value, or one the register can hold.
  lemma WritesAreBuiltExactlyWhen(fpu: Fpu, c: ChannelConfig, index: byte, v: Scalar)
    ensures WriteRequest(fpu, c, index, v, 17).Frame? <==>
              ValidChannelConfig(c) && index < c.quantity && TypeOf(c.dataType).bank in {Coils, HoldingRegisters} &&
              !(TypeOf(c.dataType).format in {UpperHalf, LowerHalf}) &&
              c.address + Registers(TypeOf(c.dataType)) * (index + 1) <= 0x10000 &&
              if TypeOf(c.dataType).format.Bit? then v.Boolean? else WireValue(fpu, c, v).Some?
  {
    if ValidWireDataType(c.dataType) { CodecFollowsNames(c.dataType); }
    hide TypeOf, WireValue;
  }

  // The reason for a refusal. A short buffer is the reason only if nothing else is wrong, and never
  // for a coil, whose builder reports any refusal as an invalid configuration.
  lemma RefusalsAreNamed(fpu: Fpu, c: ChannelConfig, index: byte, v: Scalar, capacity: nat)
    ensures ReadRequest(c, capacity).Refused? ==>
              ReadRequest(c, capacity).status == if ValidChannelConfig(c) && capacity < 8 then BufferTooSmall else InvalidConfig
    ensures WriteRequest(fpu, c, index, v, capacity).Frame? <==>
              WriteRequest(fpu, c, index, v, 17).Frame? && |WriteRequest(fpu, c, index, v, 17).bytes| <= capacity
    ensures WriteRequest(fpu, c, index, v, capacity).Frame? ==>
              WriteRequest(fpu, c, index, v, capacity) == WriteRequest(fpu, c, index, v, 17)
    ensures WriteRequest(fpu, c, index, v, capacity).Refused? ==>
              WriteRequest(fpu, c, index, v, capacity).status
              == if WriteRequest(fpu, c, index, v, 17).Frame? && c.dataType != 0x00 then BufferTooSmall else InvalidConfig
  {
    hide WithCrc, WireValue;
  }

  // ---- checksummed frames ----

  lemma CrcOkIsWithCrc(frame: seq<byte>)
    requires |frame| >= 2
    ensures CrcOk(frame) <==> frame == WithCrc(frame[..|frame| - 2])
  {
    hide Crc16Of;
    var n := |frame| - 2;
    var body := frame[..n];
    if CrcOk(frame) {
      var crc := Crc16Of(body);
      Crc16Range(body);
      assert ToLe(crc, 2) == [crc % 256] + ToLe(crc / 256, 1);
      assert ToLe(crc / 256, 1) == [crc / 256 % 256] + ToLe(crc / 256 / 256, 0);
      assert frame == body + [frame[n], frame[n + 1]];
    }
    WithCrcOk(body);
  }

  lemma WithCrcInjective(a: seq<byte>, b: seq<byte>)
    requires WithCrc(a) == WithCrc(b)
    ensures a == b
  {
    WithCrcOk(a); WithCrcOk(b);
  }

  // ---- write verdicts ----

  // What a conforming server answers to a write it executed, and to one it refused.
  function Acknowledgement(request: seq<byte>): seq<byte>
    requires |request| >= 6
  {
    WithCrc(request[..6])
  }

  function Refusal(request: seq<byte>, code: byte): seq<byte>
    requires |request| >= 2 && request[1] < 0x80
  {
    WithCrc([request[0], request[1] + 0x80, code])
  }

  lemma WriteRequestShape(fpu: Fpu, c: ChannelConfig, index: byte, v: Scalar)
    requires WriteRequest(fpu, c, index, v, 17).Frame?
    ensures var request := WriteRequest(fpu, c, index, v, 17).bytes;
            CrcOk(request) && request[0] == c.slaveId &&
            ((request[1] in {WRITE_COIL, WRITE_REGISTER} && |request| == 8) ||
             (request[1] == WRITE_REGISTERS && 13 <= |request| <= 17 && |request| == 9 + 2 * Field(request, 4)))
  {
    hide CrcOk, WithCrc, WireValue;
    if c.dataType == 0x00 {
      SingleWriteFrame(c.slaveId, WRITE_COIL, c.address + index, if v.truth then 0xff else 0x00, 0x00);
    } else {
      var words := RegistersPerValue(c.dataType);
      var address := c.address + index * words;
      var wire := WireValue(fpu, c, v).value;
      if words == 1 {
        assert wire == [wire[0], wire[1]];
        SingleWriteFrame(c.slaveId, WRITE_REGISTER, address, wire[0], wire[1]);
      } else {
        MultipleWriteFrame(c.slaveId, address, words, wire);
      }
    }
  }

  // Main result: of all answers to a write request, exactly one is accepted, the acknowledgement;
  // and exactly the refusals are reported as exceptions, each with its own code.
  lemma WriteVerdictExactlyWhen(fpu: Fpu, c: ChannelConfig, index: byte, v: Scalar, response: seq<byte>, code: byte)
    requires WriteRequest(fpu, c, index, v, 17).Frame?
    ensures var request := WriteRequest(fpu, c, index, v, 17).bytes;
            request[1] < 0x80 &&
            (WriteResponse(c, index, request, response).0 == Ok <==> response == Acknowledgement(request)) &&
            (WriteResponse(c, index, request, response) == (ExceptionResponse, code) <==> response == Refusal(request, code)) &&
            (WriteResponse(c, index, request, response).0 == CrcMismatch <==> |response| >= 5 && !CrcOk(response)) &&
            (WriteResponse(c, index, request, response).0 == Truncated <==> |response| < 5)
  {
    var request := WriteRequest(fpu, c, index, v, 17).bytes;
    WriteRequestShape(fpu, c, index, v);
    WriteIsAcknowledged(fpu, c, index, v);
    hide WriteRequest, CrcOk, WithCrc;
    RefusalIsReported(c, index, request, response, code);
    if |response| >= 2 { CrcOkIsWithCrc(response); }
    if WriteResponse(c, index, request, response).0 == Ok {
      assert response[..|response| - 2] == request[..6];
    }
  }

  lemma RefusalIsReported(c: ChannelConfig, index: byte, request: seq<byte>, response: seq<byte>, code: byte)
    requires ValidChannelConfig(c) && index < c.quantity && WritableType(c.dataType)
    requires |request| >= 8 && request[0] == c.slaveId && request[1] < 0x80
    ensures WriteResponse(c, index, request, response) == (ExceptionResponse, code) <==> response == Refusal(request, code)
  {
    hide CrcOk, WithCrc;
    var body := [request[0], request[1] + 0x80, code];
    if |response| == 5 {
      CrcOkIsWithCrc(response);
      assert response[..3] == [response[0], response[1], response[2]];
      WithCrcOk(body);
      if response == WithCrc(body) {
        assert response[..3] == body;
      }
    }
  }

  // A server's exception reply is reported as such, with its code.
  lemma ExceptionReplyIsReported(fpu: Fpu, c: ChannelConfig, index: byte, v: Scalar, d: Device, code: byte)
    requires WriteRequest(fpu, c, index, v, 17).Frame? && d.id == c.slaveId
    ensures var request := WriteRequest(fpu, c, index, v, 17).bytes;
            WriteResponse(c, index, request, ExceptionReply(d, request[1], code)) == (ExceptionResponse, code)
  {
    hide WriteRequest, WithCrc, WriteResponse, CrcOk;
    var request := WriteRequest(fpu, c, index, v, 17).bytes;
    WriteRequestShape(fpu, c, index, v);
    WriteVerdictExactlyWhen(fpu, c, index, v, ExceptionReply(d, request[1], code), code);
  }

  // Damage to at most two neighbouring bytes of any well-formed answer never gets further than the
  // checksum test.
  lemma DamagedWriteAnswerRejected(fpu: Fpu, c: ChannelConfig, index: byte, v: Scalar, answer: seq<byte>, damaged: seq<byte>,
                                   at: nat, size: nat)
    requires WriteRequest(fpu, c, index, v, 17).Frame? && |answer| >= 5 && CrcOk(answer)
    requires DifferOnlyIn(answer, damaged, at, size) && size <= 2 && answer != damaged
    ensures WriteResponse(c, index, WriteRequest(fpu, c, index, v, 17).bytes, damaged).0 == CrcMismatch
  {
    hide WriteRequest, WriteResponse, CrcOk;
    BurstBreaksCrc(answer, damaged, at, size);
    WriteVerdictExactlyWhen(fpu, c, index, v, damaged, 0);
  }

  // The answers a server can give to a frame that are the acknowledgement of a write.
  lemma AcknowledgesOnlyItsRequest(d: Device, frame: seq<byte>, body: seq<byte>)
    requires ValidDevice(d) && |body| == 6 && body[1] in {WRITE_COIL, WRITE_REGISTER, WRITE_REGISTERS}
    requires Execute(d, frame).1 == Some(WithCrc(body))
    ensures |frame| >= 8 && CrcOk(frame) && frame[0] == d.id && frame[..6] == body
    ensures body[1] in {WRITE_COIL, WRITE_REGISTER} ==> |frame| == 8
    ensures body[1] == WRITE_REGISTERS ==> |frame| == 9 + 2 * Field(frame, 4)
  {
    hide CrcOk, WithCrc, RegisterBytes, PackBits, RegisterWords, Replace;
    var f := frame[1];
    WithCrcOk(body);
    var answer := Execute(d, frame).1.value;
    assert answer[..6] == body && answer[1] == body[1] && |answer| == 8;
    if answer == WithCrc(frame[..6]) && f in {WRITE_COIL, WRITE_REGISTER, WRITE_REGISTERS} {
      WithCrcInjective(frame[..6], body);
      assert frame[1] == body[1];
    } else if f in {READ_COILS, READ_DISCRETE, READ_HOLDING, READ_INPUT} {
      ReplyFunction(d, frame);
    }
  }

  // A read is answered under its own function code or as an exception.
  lemma ReplyFunction(d: Device, frame: seq<byte>)
    requires ValidDevice(d) && |frame| >= 2 && frame[1] in {READ_COILS, READ_DISCRETE, READ_HOLDING, READ_INPUT}
    requires Execute(d, frame).1.Some?
    ensures var answer := Execute(d, frame).1.value;
            |answer| >= 2 && answer[1] in {frame[1], frame[1] as int + 0x80}
  {
    hide CrcOk, RegisterBytes, PackBits, ToLe, Crc16Of;
  }

  // Main result: an accepted verdict means that a server with the channel's address executed a
  // write of the same kind at the same place, whatever frame reached it. It was the request itself
  // if that is a single write, or if no more than two neighbouring bytes were damaged on the way.
  lemma AcceptedWriteWasExecuted(fpu: Fpu, c: ChannelConfig, index: byte, v: Scalar, d: Device, frame: seq<byte>)
    requires ValidDevice(d) && WriteRequest(fpu, c, index, v, 17).Frame?
    requires Execute(d, frame).1.Some?
    requires WriteResponse(c, index, WriteRequest(fpu, c, index, v, 17).bytes, Execute(d, frame).1.value).0 == Ok
    ensures var request := WriteRequest(fpu, c, index, v, 17).bytes;
            d.id == c.slaveId && CrcOk(frame) && |frame| == |request| && frame[..6] == request[..6] &&
            (|request| == 8 || (exists at, size :: size <= 2 && DifferOnlyIn(request, frame, at, size)) ==>
               frame == request && Execute(d, frame).0 == Written(fpu, c, index, v, d))
  {
    hide Execute, CrcOk, WithCrc, WriteRequest, WriteResponse, Written;
    var request := WriteRequest(fpu, c, index, v, 17).bytes;
    WriteRequestShape(fpu, c, index, v);
    WriteVerdictExactlyWhen(fpu, c, index, v, Execute(d, frame).1.value, 0);
    AcknowledgesOnlyItsRequest(d, frame, request[..6]);
    SameHead(frame, request);
    if |request| == 8 {
      CrcOkIsWithCrc(request); CrcOkIsWithCrc(frame);
      assert frame == request;
    } else if frame != request {
      forall at: nat, size: nat | size <= 2 && DifferOnlyIn(request, frame, at, size)
        ensures false
      {
        BurstBreaksCrc(request, frame, at, size);
      }
    }
    if frame == request { WriteIsExecuted(fpu, c, index, v, d); }
  }

  lemma SameHead(a: seq<byte>, b: seq<byte>)
    requires |a| >= 6 && |b| >= 6 && a[..6] == b[..6]
    ensures a[0] == b[0] && a[1] == b[1] && Field(a, 4) == Field(b, 4)
  {
    assert forall i :: 0 <= i < 6 ==> a[i] == a[..6][i] && b[i] == b[..6][i];
  }

  // ---- read verdicts ----

  // Main result: an answer to a poll is accepted exactly when it is the checksummed frame of the
  // channel's server and function with the announced number of data bytes; exactly the frames of an
  // exception are reported as one.
  lemma ReadVerdictExactlyWhen(fpu: Fpu, c: ChannelConfig, frame: seq<byte>, code: byte)
    requires ValidChannelConfig(c)
    ensures ReadResponse(fpu, c, frame).Values? <==>
              |frame| == DataBytes(c) + 5 && DataBytes(c) < 256 &&
              frame == WithCrc([c.slaveId, ReadFunction(TypeOf(c.dataType).bank), DataBytes(c)] + frame[3..3 + DataBytes(c)])
    ensures ReadResponse(fpu, c, frame) == Exception(code) <==>
              frame == WithCrc([c.slaveId, ReadFunction(TypeOf(c.dataType).bank) + 0x80, code])
    ensures ReadResponse(fpu, c, frame) == Fault(CrcMismatch) <==> |frame| >= 5 && !CrcOk(frame)
  {
    CodecFollowsNames(c.dataType);
    hide TypeOf, WithCrc, CrcOk, ValueAt, FunctionCode, DataBytes;
    ExceptionExactlyWhen(fpu, c, frame, code);
    hide ReadResponse;
    ValuesExactlyWhen(fpu, c, frame);
    MismatchExactlyWhen(fpu, c, frame);
  }

  lemma MismatchExactlyWhen(fpu: Fpu, c: ChannelConfig, frame: seq<byte>)
    requires ValidChannelConfig(c)
    ensures ReadResponse(fpu, c, frame) == Fault(CrcMismatch) <==> |frame| >= 5 && !CrcOk(frame)
  {
    hide CrcOk, ValueAt, FunctionCode, DataBytes;
  }

  lemma ValuesExactlyWhen(fpu: Fpu, c: ChannelConfig, frame: seq<byte>)
    requires ValidChannelConfig(c)
    ensures ReadResponse(fpu, c, frame).Values? <==>
              |frame| == DataBytes(c) + 5 && DataBytes(c) < 256 &&
              frame == WithCrc([c.slaveId, FunctionCode(c.dataType), DataBytes(c)] + frame[3..3 + DataBytes(c)])
  {
    hide WithCrc, CrcOk, ValueAt, FunctionCode, DataBytes;
    if |frame| == DataBytes(c) + 5 && DataBytes(c) < 256 {
      var wanted := [c.slaveId, FunctionCode(c.dataType), DataBytes(c)] + frame[3..3 + DataBytes(c)];
      CrcOkIsWithCrc(frame);
      WithCrcOk(wanted);
      assert frame[..|frame| - 2] == [frame[0], frame[1], frame[2]] + frame[3..3 + DataBytes(c)];
      if frame == WithCrc(wanted) { FirstThree(frame, wanted); }
    }
  }

  lemma FirstThree(frame: seq<byte>, body: seq<byte>)
    requires 3 <= |body| <= |frame| && frame[..|body|] == body
    ensures frame[0] == body[0] && frame[1] == body[1] && frame[2] == body[2]
  {
    assert forall i :: 0 <= i < 3 ==> frame[i] == frame[..|body|][i];
  }

  lemma ExceptionExactlyWhen(fpu: Fpu, c: ChannelConfig, frame: seq<byte>, code: byte)
    requires ValidChannelConfig(c)
    ensures FunctionCode(c.dataType) < 0x80
    ensures ReadResponse(fpu, c, frame) == Exception(code) <==>
              frame == WithCrc([c.slaveId, FunctionCode(c.dataType) + 0x80, code])
  {
    var f := FunctionCode(c.dataType);
    assert f < 0x80;
    hide WithCrc, CrcOk, ValueAt, FunctionCode, DataBytes;
    if |frame| == 5 {
      CrcOkIsWithCrc(frame);
      assert frame[..3] == [frame[0], frame[1], frame[2]];
      WithCrcOk([c.slaveId, f + 0x80, code]);
    }
  }

  // An answer that is neither accepted nor an exception is refused for the first thing wrong with it:
  // its length, its checksum, its server, its function, its announced length.
  lemma FirstFaultIsNamed(fpu: Fpu, c: ChannelConfig, frame: seq<byte>)
    requires ValidChannelConfig(c) && ReadResponse(fpu, c, frame).Fault?
    ensures var f, status := ReadFunction(TypeOf(c.dataType).bank), ReadResponse(fpu, c, frame).status;
            status in {Truncated, CrcMismatch, SlaveMismatch, FunctionMismatch, LengthMismatch} &&
            (|frame| >= 5 <==> status != Truncated) &&
            (|frame| >= 5 && CrcOk(frame) <==> status in {SlaveMismatch, FunctionMismatch, LengthMismatch}) &&
            (|frame| >= 5 && CrcOk(frame) && frame[0] == c.slaveId <==> status in {FunctionMismatch, LengthMismatch}) &&
            (|frame| >= 5 && CrcOk(frame) && frame[0] == c.slaveId && frame[1] in {f, f + 0x80} <==> status == LengthMismatch)
  {
    CodecFollowsNames(c.dataType);
    hide TypeOf, CrcOk, ValueAt, DataBytes;
  }

  lemma FirstWriteFaultIsNamed(fpu: Fpu, c: ChannelConfig, index: byte, v: Scalar, response: seq<byte>)
    requires WriteRequest(fpu, c, index, v, 17).Frame?
    requires !(WriteResponse(c, index, WriteRequest(fpu, c, index, v, 17).bytes, response).0 in {Ok, ExceptionResponse})
    ensures var request := WriteRequest(fpu, c, index, v, 17).bytes;
            var (status, code) := WriteResponse(c, index, request, response);
            status in {Truncated, CrcMismatch, SlaveMismatch, FunctionMismatch, LengthMismatch} && code == 0 &&
            (|response| >= 5 <==> status != Truncated) &&
            (|response| >= 5 && CrcOk(response) <==> status in {SlaveMismatch, FunctionMismatch, LengthMismatch}) &&
            (|response| >= 5 && CrcOk(response) && response[0] == c.slaveId <==> status in {FunctionMismatch, LengthMismatch}) &&
            (status == LengthMismatch <==>
               |response| >= 5 && CrcOk(response) && response[0] == c.slaveId &&
               response[1] in {request[1], request[1] as int + 0x80})
  {
    WriteRequestShape(fpu, c, index, v);
    hide WriteRequest, CrcOk;
  }

  // A refused read is reported as such, with the server's code.
  lemma RefusedReadIsReported(fpu: Fpu, c: ChannelConfig, d: Device, code: byte)
    requires ValidChannelConfig(c) && d.id == c.slaveId
    ensures ReadResponse(fpu, c, ExceptionReply(d, FunctionCode(c.dataType), code)) == Exception(code)
  {
    hide ReadResponse, WithCrc, TypeOf;
    CodecFollowsNames(c.dataType);
    ReadVerdictExactlyWhen(fpu, c, ExceptionReply(d, FunctionCode(c.dataType), code), code);
  }

  // ---- verdicts at the master ----

  // A timeout never turns an incomplete answer into values, an exception or an acknowledgement.
  lemma TimeoutAcceptsNothing(fpu: Fpu, c: ChannelConfig, index: byte, request: seq<byte>, held: seq<byte>, queue: seq<byte>)
    ensures ReadExtent(held + queue) == Open ==>
              PollOnce(fpu, c, held, queue, true).Finished? && PollOnce(fpu, c, held, queue, true).outcome.Fault?
    ensures WriteExtent(held + queue) == Open ==>
              PollWriteOnce(c, index, request, held, queue, true).WriteFinished? &&
              !(PollWriteOnce(c, index, request, held, queue, true).status in {Ok, ExceptionResponse})
  {
    hide CrcOk, ValueAt;
  }

  // An answer that announces more than 237 data bytes, and no other, is refused as soon as it says so.
  lemma {:induction false} LongAnswerIsRefused(fpu: Fpu, c: ChannelConfig, held: seq<byte>, chunks: seq<seq<byte>>)
    requires ReadExtent(held) == Open
    ensures var s, r := Received(held, chunks, |chunks|), PollChunks(fpu, c, held, chunks);
            (ReadExtent(s) == TooLong <==> |s| >= 3 && s[1] < 0x80 && s[2] > 237) &&
            (ReadExtent(s) == TooLong ==> r.Decided? && r.outcome == Fault(BufferTooSmall))
    decreases |chunks|
  {
    hide ReadResponse;
    if chunks == [] {
    } else {
      var first := held + chunks[0];
      var s := Received(first, chunks[1..], |chunks| - 1);
      ReceivedGrows(first, chunks[1..], |chunks| - 1);
      assert s == first + s[|first|..];
      ExtentIsStable(first, s[|first|..]);
      if ReadExtent(first) == Open { LongAnswerIsRefused(fpu, c, first, chunks[1..]); }
    }
  }

  // A write's answer polled chunk by chunk before the timeout: the bytes kept while it is open, or
  // the verdict and the bytes left in the line's queue.
  function PollWriteChunks(c: ChannelConfig, index: byte, request: seq<byte>, held: seq<byte>, chunks: seq<seq<byte>>): WritePoll
    decreases |chunks|
  {
    if chunks == [] then WriteWaiting(held)
    else match PollWriteOnce(c, index, request, held, chunks[0], false)
      case WriteWaiting(more) => PollWriteChunks(c, index, request, more, chunks[1..])
      case WriteFinished(status, code, left) => WriteFinished(status, code, left)
  }

  lemma WriteExtentIsStable(s: seq<byte>, more: seq<byte>)
    ensures WriteExtent(s) != Open ==> WriteExtent(s + more) == WriteExtent(s)
    ensures WriteExtent(s).Closed? ==> 5 <= WriteExtent(s).length <= |s|
  {
  }

  // However an answer to a write is split over polls, the verdict is that of the whole answer, and
  // until its last byte arrives there is none.
  lemma {:induction false} WriteSplitDoesNotMatter(c: ChannelConfig, index: byte, request: seq<byte>,
                                                   held: seq<byte>, chunks: seq<seq<byte>>)
    requires WriteExtent(held) == Open
    ensures var s := Received(held, chunks, |chunks|);
            var r := PollWriteChunks(c, index, request, held, chunks);
            match WriteExtent(s)
            case Open => r == WriteWaiting(s)
            case Closed(length) => length <= |s| && r.WriteFinished? && (r.status, r.code) == WriteResponse(c, index, request, s[..length])
            case TooLong => false
    decreases |chunks|
  {
    hide WriteResponse;
    if chunks == [] {
    } else {
      var first := held + chunks[0];
      var s := Received(first, chunks[1..], |chunks| - 1);
      ReceivedGrows(first, chunks[1..], |chunks| - 1);
      assert s == first + s[|first|..];
      WriteExtentIsStable(first, s[|first|..]);
      if WriteExtent(first) == Open {
        WriteSplitDoesNotMatter(c, index, request, first, chunks[1..]);
      } else {
        assert s[..WriteExtent(first).length] == first[..WriteExtent(first).length];
      }
    }
  }

  // From the request to the verdict: a write answered within the timeout, in whatever pieces, ends
  // as Ok if the server executed it, and as the server's exception if the server refused it.
  lemma WriteAnswerIsBooked(fpu: Fpu, c: ChannelConfig, index: byte, v: Scalar, d: Device, code: byte, chunks: seq<seq<byte>>)
    requires ValidDevice(d) && d.id == c.slaveId && WriteRequest(fpu, c, index, v, 17).Frame?
    ensures var request := WriteRequest(fpu, c, index, v, 17).bytes;
            var r := PollWriteChunks(c, index, request, [], chunks);
            (Some(Concat(chunks)) == Execute(d, request).1 ==> r.WriteFinished? && (r.status, r.code) == (Ok, 0)) &&
            (Concat(chunks) == ExceptionReply(d, request[1], code) ==>
               r.WriteFinished? && (r.status, r.code) == (ExceptionResponse, code))
  {
    hide WriteRequest, WriteResponse, Execute, CrcOk, WithCrc;
    var request := WriteRequest(fpu, c, index, v, 17).bytes;
    WriteRequestShape(fpu, c, index, v);
    var ack, refusal := WithCrc(request[..6]), ExceptionReply(d, request[1], code);
    ReceivedIsConcat([], chunks);
    assert [] + Concat(chunks) == Concat(chunks);
    WriteIsExecuted(fpu, c, index, v, d);
    WriteIsAcknowledged(fpu, c, index, v);
    ExceptionReplyIsReported(fpu, c, index, v, d, code);
    WriteSplitDoesNotMatter(c, index, request, [], chunks);
    WithCrcOk(request[..6]);
    assert ack[1] == ack[..6][1] == request[1];
    WithCrcOk([d.id, request[1] + 0x80, code]);
    assert refusal[1] == refusal[..3][1];
    assert ack[..8] == ack && refusal[..5] == refusal;
  }

  lemma {:induction false} ReceivedIsConcat(held: seq<byte>, chunks: seq<seq<byte>>)
    ensures Received(held, chunks, |chunks|) == held + Concat(chunks)
    decreases |chunks|
  {
    if chunks == [] {
    } else {
      ReceivedIsConcat(held + chunks[0], chunks[1..]);
      assert held + (chunks[0] + Concat(chunks[1..])) == (held + chunks[0]) + Concat(chunks[1..]);
    }
  }

  // ---- pass-through ----

  // A pass-through answer polled chunk by chunk with no pause on the line, then once more after one.
  function PollRawChunks(held: seq<byte>, chunks: seq<seq<byte>>, capacity: nat): RawPoll
    decreases |chunks|
  {
    if chunks == [] then PollRawOnce(held, [], true, false, capacity)
    else match PollRawOnce(held, chunks[0], false, false, capacity)
      case RawWaiting(more) => PollRawChunks(more, chunks[1..], capacity)
      case RawFinished(status, payload, left) => RawFinished(status, payload, left)
  }

  // A pass-through answer is what came before the pause, whole and in order, whatever its pieces; it is
  // refused exactly when it is longer than the receive buffer or than the room there is for it.
  lemma {:induction false} RawAnswerIsWhole(held: seq<byte>, chunks: seq<seq<byte>>, capacity: nat)
    requires |held| <= 242
    ensures var all, r := held + Concat(chunks), PollRawChunks(held, chunks, capacity);
            if all == [] then r == RawWaiting([])
            else r.RawFinished? &&
                 if |all| <= 242 && |all| <= capacity then r.status == Ok && r.payload == all && r.left == []
                 else r.status == BufferTooSmall && r.payload == []
    decreases |chunks|
  {
    if chunks == [] {
      assert held + [] == held;
    } else {
      var more := held + chunks[0];
      assert held + (chunks[0] + Concat(chunks[1..])) == more + Concat(chunks[1..]);
      if |more| <= 242 { RawAnswerIsWhole(more, chunks[1..], capacity); }
    }
  }
}
