// The periodic uplink: how a channel's poll result becomes bytes on FPort 85, and how a
// receiver reads those bytes back.
module Uplink {
  import opened Words
  import opened Channel
  import opened RtuCodec

  datatype EncodeStatus = Done | Invalid | NoRoom
  datatype Encoded = Bytes(bytes: seq<byte>) | Failed(status: EncodeStatus)

  function Width(c: ChannelConfig): nat {
    UplinkValueWidth(UplinkDataType(c.dataType))
  }

  // The little-endian data field of one value.
  function ScalarBytes(fpu: Fpu, c: ChannelConfig, v: Scalar): (r: Option<seq<byte>>)
    ensures r.Some? ==> |r.value| == Width(c)
  {
    var width := Width(c);
    if !ValidChannelConfig(c) || !KindMatches(c, v) then None
    else match v
      case Boolean(truth) => Some([if truth then 1 else 0])
      case Floating(bits) => Some(ToLe(if width == 4 then fpu.narrow(bits) else bits, width))
      case Signed(i) => Some(ToLe(if i < 0 then i + TWO_64 else i, width))
      case Unsigned(u) => Some(ToLe(u, width))
  }

  // Header of a value frame: sign, register position and uplink type share the fourth byte.
  function ValueHeader(c: ChannelConfig, index: byte): seq<byte>
    requires ValidChannelConfig(c)
  {
    [0xf9, 0x73, c.slot,
     (if UplinkSigned(c) then 0x80 else 0) + (if index == 1 then 0x20 else 0) + UplinkDataType(c.dataType)]
  }

  // The frames of positions index.. of a reading.
  function ValueFrames(fpu: Fpu, c: ChannelConfig, values: seq<Scalar>, index: byte, room: nat): (r: Encoded)
    requires ValidChannelConfig(c) && index <= c.quantity <= |values|
    ensures r.Failed? ==> r.status != Done
    decreases c.quantity - index
  {
    if index == c.quantity then Bytes([])
    else
      var data := ScalarBytes(fpu, c, values[index]);
      if data.None? then Failed(Invalid)
      else if room < 4 + |data.value| then Failed(NoRoom)
      else
        var rest := ValueFrames(fpu, c, values, index + 1, room - 4 - |data.value|);
        if rest.Failed? then rest else Bytes(ValueHeader(c, index) + data.value + rest.bytes)
  }

  function PollSuccess(fpu: Fpu, c: ChannelConfig, values: seq<Scalar>, count: byte, room: nat): (r: Encoded)
    requires |values| == 2
    ensures r.Failed? ==> r.status != Done
  {
    if !ValidChannelConfig(c) || count != c.quantity then Failed(Invalid)
    else ValueFrames(fpu, c, values, 0, room)
  }

  // The bytes in the buffer when the encoder stops: the frames before the first that fails.
  function FramesWritten(fpu: Fpu, c: ChannelConfig, values: seq<Scalar>, index: byte, room: nat): (r: seq<byte>)
    requires ValidChannelConfig(c) && index <= c.quantity <= |values|
    ensures |r| <= room
    ensures var all := ValueFrames(fpu, c, values, index, room); all.Bytes? ==> r == all.bytes
    decreases c.quantity - index
  {
    if index == c.quantity then []
    else
      var data := ScalarBytes(fpu, c, values[index]);
      if data.None? || room < 4 + |data.value| then []
      else ValueHeader(c, index) + data.value + FramesWritten(fpu, c, values, index + 1, room - 4 - |data.value|)
  }

  function PollWritten(fpu: Fpu, c: ChannelConfig, values: seq<Scalar>, count: byte, room: nat): seq<byte>
    requires |values| == 2
  {
    if !ValidChannelConfig(c) || count != c.quantity then [] else FramesWritten(fpu, c, values, 0, room)
  }

  function PollFailure(c: ChannelConfig, room: nat): Encoded {
    if !ValidChannelConfig(c) then Failed(Invalid)
    else if room < 3 then Failed(NoRoom)
    else Bytes([0xff, 0x15, c.slot])
  }

  // ---- the encoders ----

  method WriteLittleEndian(value: nat, output: array<byte>, width: nat)
    requires width <= output.Length
    modifies output
    ensures output[..] == ToLe(value, width) + old(output[width..])
  {
    var rest := value;
    for i := 0 to width
      invariant output[..i] + ToLe(rest, width - i) == ToLe(value, width)
      invariant output[width..] == old(output[width..])
    {
      ghost var before := output[..i];
      output[i] := rest % 256;
      assert output[..i + 1] == before + [rest % 256];
      assert ToLe(rest, width - i) == [rest % 256] + ToLe(rest / 256, width - i - 1);
      assert before + ([rest % 256] + ToLe(rest / 256, width - i - 1))
          == (before + [rest % 256]) + ToLe(rest / 256, width - i - 1);
      rest := rest / 256;
    }
    assert output[..width] + ToLe(rest, 0) == output[..width];
    assert output[..] == output[..width] + output[width..];
  }

  // The status of the scalar encoder: a short buffer is reported ahead of a value of another kind.
  function ScalarStatus(fpu: Fpu, c: ChannelConfig, v: Scalar, room: nat): EncodeStatus {
    if !ValidChannelConfig(c) then Invalid
    else if room < Width(c) then NoRoom
    else if ScalarBytes(fpu, c, v).Some? then Done else Invalid
  }

  method EncodeScalarBytes(fpu: Fpu, c: ChannelConfig, v: Scalar, output: array<byte>)
    returns (status: EncodeStatus, written: nat)
    modifies output
    ensures status == ScalarStatus(fpu, c, v, output.Length)
    ensures status == Done ==> written == Width(c) && output[..written] == ScalarBytes(fpu, c, v).value
    ensures status != Done ==> written == 0
  {
    if !ValidChannelConfig(c) { return Invalid, 0; }
    var width := UplinkValueWidth(UplinkDataType(c.dataType));
    if output.Length < width { return NoRoom, 0; }
    if IsBooleanType(c.dataType) {
      if !v.Boolean? { return Invalid, 0; }
      output[0] := if v.truth then 1 else 0;
      return Done, 1;
    }
    if IsFloatingPointType(c.dataType) {
      if !v.Floating? { return Invalid, 0; }
      if width == 4 {
        WriteLittleEndian(fpu.narrow(v.bits), output, 4);
        return Done, 4;
      }
      WriteLittleEndian(v.bits, output, width);
      return Done, width;
    }
    var raw: u64;
    if UplinkSigned(c) {
      if !v.Signed? { return Invalid, 0; }
      raw := if v.i < 0 then v.i + TWO_64 else v.i;
    } else {
      if !v.Unsigned? { return Invalid, 0; }
      raw := v.u;
    }
    WriteLittleEndian(raw, output, width);
    return Done, width;
  }

  // What a value frame of this channel, position and data comes to.
  function ValueFrame(c: ChannelConfig, index: byte, data: seq<byte>, room: nat): Encoded {
    if !ValidChannelConfig(c) || index > 1 || |data| != Width(c) then Failed(Invalid)
    else if room < 4 + |data| then Failed(NoRoom)
    else Bytes(ValueHeader(c, index) + data)
  }

  // One value frame at offset `at` of the output.
  method EncodePeriodicValue(c: ChannelConfig, index: byte, data: seq<byte>, output: array<byte>, at: nat)
    returns (status: EncodeStatus, written: nat)
    requires at <= output.Length
    modifies output
    ensures match ValueFrame(c, index, data, output.Length - at)
            case Failed(why) => status == why && written == 0 && output[..] == old(output[..])
            case Bytes(frame) =>
              status == Done && written == |frame| && output[..at + written] == old(output[..at]) + frame
  {
    if !ValidChannelConfig(c) { return Invalid, 0; }
    if c.slot >= 32 || index > 1 { return Invalid, 0; }
    var expected := UplinkValueWidth(UplinkDataType(c.dataType));
    if expected == 0 || |data| != expected { return Invalid, 0; }
    if output.Length - at < 4 + expected { return NoRoom, 0; }
    output[at] := 0xf9;
    output[at + 1] := 0x73;
    output[at + 2] := c.slot;
    output[at + 3] := (if UplinkSigned(c) then 0x80 else 0) + (if index == 1 then 0x20 else 0)
                      + UplinkDataType(c.dataType) % 32;
    forall i | 0 <= i < |data| { output[at + 4 + i] := data[i]; }
    return Done, 4 + expected;
  }

  // One round of the loop over the values: scalar bytes, then their frame.
  method EncodeValueFrame(fpu: Fpu, c: ChannelConfig, index: byte, value: Scalar, output: array<byte>, at: nat)
    returns (status: EncodeStatus, written: nat)
    requires ValidChannelConfig(c) && index <= 1 && at <= output.Length
    modifies output
    ensures match ScalarBytes(fpu, c, value)
            case None => status == Invalid && written == 0 && output[..] == old(output[..])
            case Some(data) =>
              if output.Length - at < 4 + |data| then status == NoRoom && written == 0 && output[..] == old(output[..])
              else status == Done && written == 4 + |data| &&
                   output[..at + written] == old(output[..at]) + (ValueHeader(c, index) + data)
  {
    var data := new byte[8];
    var scalarStatus, dataLength := EncodeScalarBytes(fpu, c, value, data);
    if scalarStatus != Done { return scalarStatus, 0; }
    status, written := EncodePeriodicValue(c, index, data[..dataLength], output, at);
  }

  // `prefix` is written, and what the remaining positions come to completes `total` and `all`.
  ghost predicate Continues(fpu: Fpu, c: ChannelConfig, values: seq<Scalar>, index: byte, room: nat,
                            total: Encoded, all: seq<byte>, prefix: seq<byte>)
    requires ValidChannelConfig(c) && index <= c.quantity <= |values|
  {
    var rest := ValueFrames(fpu, c, values, index, room);
    total == (if rest.Failed? then rest else Bytes(prefix + rest.bytes)) &&
    all == prefix + FramesWritten(fpu, c, values, index, room)
  }

  lemma ContinuesFromStart(fpu: Fpu, c: ChannelConfig, values: seq<Scalar>, room: nat)
    requires ValidChannelConfig(c) && c.quantity <= |values|
    ensures Continues(fpu, c, values, 0, room, ValueFrames(fpu, c, values, 0, room), FramesWritten(fpu, c, values, 0, room), [])
  {
    var total, all := ValueFrames(fpu, c, values, 0, room), FramesWritten(fpu, c, values, 0, room);
    assert [] + all == all;
    if total.Bytes? { assert [] + total.bytes == total.bytes; }
  }

  lemma ContinuesToEnd(fpu: Fpu, c: ChannelConfig, values: seq<Scalar>, room: nat, total: Encoded, all: seq<byte>, prefix: seq<byte>)
    requires ValidChannelConfig(c) && c.quantity <= |values| && Continues(fpu, c, values, c.quantity, room, total, all, prefix)
    ensures total == Bytes(prefix) && all == prefix
  {
    assert prefix + [] == prefix;
  }

  lemma ContinuesWithFailure(fpu: Fpu, c: ChannelConfig, values: seq<Scalar>, index: byte, room: nat,
                             total: Encoded, all: seq<byte>, prefix: seq<byte>)
    requires ValidChannelConfig(c) && index < c.quantity <= |values|
    requires Continues(fpu, c, values, index, room, total, all, prefix)
    ensures var data := ScalarBytes(fpu, c, values[index]);
            (data.None? ==> total == Failed(Invalid) && all == prefix) &&
            (data.Some? && room < 4 + |data.value| ==> total == Failed(NoRoom) && all == prefix)
  {
    assert prefix + [] == prefix;
  }

  lemma ContinueWithFrame(fpu: Fpu, c: ChannelConfig, values: seq<Scalar>, index: byte, room: nat,
                          total: Encoded, all: seq<byte>, prefix: seq<byte>, data: seq<byte>)
    requires ValidChannelConfig(c) && index < c.quantity <= |values|
    requires Continues(fpu, c, values, index, room, total, all, prefix)
    requires ScalarBytes(fpu, c, values[index]) == Some(data) && room >= 4 + |data|
    ensures Continues(fpu, c, values, index + 1, room - 4 - |data|, total, all, prefix + (ValueHeader(c, index) + data))
  {
    hide ScalarBytes, ValueHeader;
    var frame := ValueHeader(c, index) + data;
    var rest, written := ValueFrames(fpu, c, values, index + 1, room - 4 - |data|), FramesWritten(fpu, c, values, index + 1, room - 4 - |data|);
    if rest.Bytes? { assert prefix + (frame + rest.bytes) == (prefix + frame) + rest.bytes; }
    assert prefix + (frame + written) == (prefix + frame) + written;
  }

  method EncodePollSuccess(fpu: Fpu, c: ChannelConfig, values: seq<Scalar>, valueCount: byte, output: array<byte>)
    returns (status: EncodeStatus, written: nat)
    requires |values| == 2
    modifies output
    ensures written <= output.Length && output[..written] == PollWritten(fpu, c, values, valueCount, output.Length)
    ensures match PollSuccess(fpu, c, values, valueCount, output.Length)
            case Failed(why) => status == why
            case Bytes(bytes) => status == Done && output[..written] == bytes
  {
    hide ScalarBytes, ValueHeader, Width, Continues, ValueFrames, FramesWritten;
    written := 0;
    if !ValidChannelConfig(c) || valueCount != c.quantity || valueCount == 0 || valueCount > 2 { return Invalid, 0; }
    ghost var total, all := ValueFrames(fpu, c, values, 0, output.Length), FramesWritten(fpu, c, values, 0, output.Length);
    ContinuesFromStart(fpu, c, values, output.Length);
    for index := 0 to valueCount
      invariant written <= output.Length
      invariant Continues(fpu, c, values, index, output.Length - written, total, all, output[..written])
    {
      ghost var prefix := output[..written];
      ContinuesWithFailure(fpu, c, values, index, output.Length - written, total, all, prefix);
      var frameStatus, frameLength := EncodeValueFrame(fpu, c, index, values[index], output, written);
      if frameStatus != Done { return frameStatus, written; }
      ContinueWithFrame(fpu, c, values, index, output.Length - written, total, all, prefix, ScalarBytes(fpu, c, values[index]).value);
      written := written + frameLength;
    }
    ContinuesToEnd(fpu, c, values, output.Length - written, total, all, output[..written]);
    return Done, written;
  }

  method EncodePollFailure(c: ChannelConfig, output: array<byte>) returns (status: EncodeStatus, written: nat)
    modifies output
    ensures written <= output.Length
    ensures match PollFailure(c, output.Length)
            case Failed(why) => status == why && written == 0
            case Bytes(bytes) => status == Done && written == |bytes| && output[..written] == bytes
  {
    if !ValidChannelConfig(c) { return Invalid, 0; }
    if output.Length < 3 { return NoRoom, 0; }
    output[0] := 0xff;
    output[1] := 0x15;
    output[2] := c.slot;
    return Done, 3;
  }

  // ---- the receiver ----

  datatype Report =
    | ValueReport(slot: byte, uplinkType: byte, signed: bool, index: byte, value: Scalar)
    | CollectionFailure(slot: byte)

  function FieldValue(fpu: Fpu, uplinkType: byte, signed: bool, field: seq<byte>): Scalar
    requires 0 < |field| == UplinkValueWidth(uplinkType)
  {
    FromLeBound(field);
    Pow256Values();
    if uplinkType <= 0x01 then Boolean(field[0] == 1)
    else if uplinkType == 0x05 || uplinkType == 0x07 then Floating(fpu.widen(FromLe(field)))
    else if uplinkType == 0x0d || uplinkType == 0x0f then Floating(FromLe(field))
    else if !signed then Unsigned(FromLe(field))
    else Signed(if 2 * FromLe(field) >= Pow256(|field|) then FromLe(field) - Pow256(|field|) else FromLe(field))
  }

  function ReceiveOne(fpu: Fpu, s: seq<byte>): (r: Option<(Report, nat)>)
    ensures r.Some? ==> 0 < r.value.1 <= |s|
  {
    if |s| >= 3 && s[0] == 0xff && s[1] == 0x15 then Some((CollectionFailure(s[2]), 3))
    else if |s| >= 4 && s[0] == 0xf9 && s[1] == 0x73 then
      var uplinkType := s[3] % 32;
      var width := UplinkValueWidth(uplinkType);
      if width == 0 || |s| < 4 + width then None
      else
        var signed := s[3] >= 0x80;
        Some((ValueReport(s[2], uplinkType, signed, s[3] / 32 % 2, FieldValue(fpu, uplinkType, signed, s[4..4 + width])), 4 + width))
    else None
  }

  // All reports of a byte stream, or nothing when the stream is malformed.
  function Receive(fpu: Fpu, s: seq<byte>): Option<seq<Report>>
    decreases |s|
  {
    if s == [] then Some([])
    else match ReceiveOne(fpu, s)
      case None => None
      case Some((report, n)) =>
        match Receive(fpu, s[n..])
        case None => None
        case Some(reports) => Some([report] + reports)
  }

  // ---- meaning is preserved ----

  predicate Float32(c: ChannelConfig) {
    IsFloatingPointType(c.dataType) && Width(c) == 4
  }

  // Values of the channel's kind that its uplink field has room for.
  predicate FitsField(c: ChannelConfig, v: Scalar) {
    KindMatches(c, v) &&
    match v
    case Boolean(_) => true
    case Floating(_) => true
    case Signed(i) => -Pow256(Width(c)) <= 2 * i < Pow256(Width(c))
    case Unsigned(u) => u < Pow256(Width(c))
  }

  // What the field carries of a value: all of it, except that a float32 field holds the nearest
  // float.
  function Carried(fpu: Fpu, c: ChannelConfig, v: Scalar): Scalar {
    if v.Floating? && Width(c) == 4 then Floating(fpu.widen(fpu.narrow(v.bits))) else v
  }

  function CarriedAll(fpu: Fpu, c: ChannelConfig, values: seq<Scalar>): (r: seq<Scalar>)
    ensures |r| == |values|
  {
    seq(|values|, k requires 0 <= k < |values| => Carried(fpu, c, values[k]))
  }

  lemma FieldRoundTrip(fpu: Fpu, c: ChannelConfig, v: Scalar)
    requires ValidChannelConfig(c) && FitsField(c, v)
    ensures ScalarBytes(fpu, c, v).Some?
    ensures FieldValue(fpu, UplinkDataType(c.dataType), UplinkSigned(c), ScalarBytes(fpu, c, v).value) == Carried(fpu, c, v)
  {
    Pow256Values();
    var width := Width(c);
    match v
    case Boolean(truth) =>
    case Floating(bits) => FromLeToLe(if width == 4 then fpu.narrow(bits) else bits, width);
    case Unsigned(u) => FromLeToLe(u, width);
    case Signed(i) =>
      if i >= 0 {
        FromLeToLe(i, width);
      } else {
        NegativeField(i, width);
        FromLeToLe(i + Pow256(width), width);
      }
  }

  // The low bytes of a negative 64-bit integer are its two's complement at that width.
  lemma NegativeField(i: i64, width: nat)
    requires width == 2 || width == 4 || width == 8
    requires -Pow256(width) <= 2 * i < 0
    ensures ToLe(i + TWO_64, width) == ToLe(i + Pow256(width), width)
  {
    Pow256Values();
    var k := TWO_64 / Pow256(width) - 1;
    assert i + TWO_64 == i + Pow256(width) + k * Pow256(width);
    ToLeTruncates(i + Pow256(width), k, width);
  }

  function ReportAt(c: ChannelConfig, values: seq<Scalar>, index: byte): Report
    requires index < |values|
  {
    ValueReport(c.slot, UplinkDataType(c.dataType), UplinkSigned(c), index, values[index])
  }

  function ReportsFrom(c: ChannelConfig, values: seq<Scalar>, index: byte): seq<Report>
    requires index <= c.quantity <= |values|
    decreases c.quantity - index
  {
    if index == c.quantity then [] else [ReportAt(c, values, index)] + ReportsFrom(c, values, index + 1)
  }

  lemma HeaderFields(c: ChannelConfig, index: byte)
    requires ValidChannelConfig(c) && index <= 1
    ensures var h := ValueHeader(c, index);
            |h| == 4 && h[0] == 0xf9 && h[1] == 0x73 && h[2] == c.slot && h[3] % 32 == UplinkDataType(c.dataType) &&
            (h[3] >= 0x80 <==> UplinkSigned(c)) && h[3] / 32 % 2 == index
    ensures UplinkValueWidth(UplinkDataType(c.dataType)) > 0
  {
  }

  lemma FrameIsReceived(fpu: Fpu, c: ChannelConfig, values: seq<Scalar>, index: byte, rest: seq<byte>)
    requires ValidChannelConfig(c) && index < c.quantity <= |values| && FitsField(c, values[index])
    ensures ScalarBytes(fpu, c, values[index]).Some?
    ensures var frame := ValueHeader(c, index) + ScalarBytes(fpu, c, values[index]).value;
            ReceiveOne(fpu, frame + rest) == Some((ReportAt(c, CarriedAll(fpu, c, values), index), |frame|))
  {
    FieldRoundTrip(fpu, c, values[index]);
    HeaderFields(c, index);
    hide FieldValue, ValueHeader, ScalarBytes, UplinkDataType, UplinkSigned, UplinkValueWidth, FitsField, Carried;
    var header, data := ValueHeader(c, index), ScalarBytes(fpu, c, values[index]).value;
    var s := header + data + rest;
    assert s == (header + data) + rest;
    assert s[4..4 + |data|] == data;
    assert s[0] == header[0] && s[1] == header[1] && s[2] == header[2] && s[3] == header[3];
  }

  // A reading is encoded without error in quantity * (4 + width) bytes ...
  lemma {:induction false} FramesLength(fpu: Fpu, c: ChannelConfig, values: seq<Scalar>, index: byte, room: nat)
    requires ValidChannelConfig(c) && index <= c.quantity <= |values|
    requires forall k :: index <= k < c.quantity ==> KindMatches(c, values[k])
    requires room >= (c.quantity - index) * (4 + Width(c))
    ensures ValueFrames(fpu, c, values, index, room).Bytes?
    ensures |ValueFrames(fpu, c, values, index, room).bytes| == (c.quantity - index) * (4 + Width(c))
    decreases c.quantity - index
  {
    if index == c.quantity {
    } else {
      assert (c.quantity - index) * (4 + Width(c)) == (4 + Width(c)) + (c.quantity - (index + 1)) * (4 + Width(c));
      FramesLength(fpu, c, values, index + 1, room - 4 - Width(c));
    }
  }

  lemma {:induction false} FramesNeed(fpu: Fpu, c: ChannelConfig, values: seq<Scalar>, index: byte, room: nat)
    requires ValidChannelConfig(c) && index <= c.quantity <= |values|
    requires ValueFrames(fpu, c, values, index, room).Bytes?
    ensures room >= (c.quantity - index) * (4 + Width(c))
    ensures forall k :: index <= k < c.quantity ==> KindMatches(c, values[k])
    decreases c.quantity - index
  {
    if index == c.quantity {
    } else {
      assert (c.quantity - index) * (4 + Width(c)) == (4 + Width(c)) + (c.quantity - (index + 1)) * (4 + Width(c));
      FramesNeed(fpu, c, values, index + 1, room - 4 - Width(c));
    }
  }

  // A poll result encodes exactly with a valid channel, its number of values, each of the channel's
  // kind, and room for their frames; only for want of room does the status say so. A failure takes
  // three bytes.
  lemma PollEncodesExactlyWhen(fpu: Fpu, c: ChannelConfig, values: seq<Scalar>, count: byte, room: nat)
    requires |values| == 2
    ensures var fits := ValidChannelConfig(c) && count == c.quantity && forall k :: 0 <= k < c.quantity ==> KindMatches(c, values[k]);
            (PollSuccess(fpu, c, values, count, room).Bytes? <==> fits && room >= c.quantity * (4 + Width(c))) &&
            (PollSuccess(fpu, c, values, count, room) == Failed(NoRoom) ==>
               ValidChannelConfig(c) && count == c.quantity && room < c.quantity * (4 + Width(c)))
    ensures PollFailure(c, room).Bytes? <==> ValidChannelConfig(c) && room >= 3
  {
    hide ScalarBytes, KindMatches, Width;
    if ValidChannelConfig(c) && count == c.quantity {
      if PollSuccess(fpu, c, values, count, room).Bytes? { FramesNeed(fpu, c, values, 0, room); }
      if (forall k :: 0 <= k < c.quantity ==> KindMatches(c, values[k])) && room >= c.quantity * (4 + Width(c)) {
        FramesLength(fpu, c, values, 0, room);
      }
      if PollSuccess(fpu, c, values, count, room) == Failed(NoRoom) { NoRoomMeansShort(fpu, c, values, 0, room); }
    }
  }

  lemma {:induction false} NoRoomMeansShort(fpu: Fpu, c: ChannelConfig, values: seq<Scalar>, index: byte, room: nat)
    requires ValidChannelConfig(c) && index <= c.quantity <= |values|
    requires ValueFrames(fpu, c, values, index, room) == Failed(NoRoom)
    ensures room < (c.quantity - index) * (4 + Width(c))
    decreases c.quantity - index
  {
    if index < c.quantity {
      var n := c.quantity - index;
      assert n * (4 + Width(c)) == (4 + Width(c)) + (n - 1) * (4 + Width(c));
      assert (n - 1) * (4 + Width(c)) >= 0;
      if room >= 4 + Width(c) { NoRoomMeansShort(fpu, c, values, index + 1, room - 4 - Width(c)); }
    }
  }

  function Prepend(first: seq<Report>, later: Option<seq<Report>>): Option<seq<Report>> {
    match later
    case None => None
    case Some(reports) => Some(first + reports)
  }

  // ... and a receiver gets back what the fields carry of its values, whatever follows.
  ghost predicate Conveys(fpu: Fpu, bytes: seq<byte>, reports: seq<Report>) {
    forall rest :: Receive(fpu, bytes + rest) == Prepend(reports, Receive(fpu, rest))
  }

  lemma ConveysNothing(fpu: Fpu)
    ensures Conveys(fpu, [], [])
  {
    forall rest
      ensures Receive(fpu, [] + rest) == Prepend([], Receive(fpu, rest))
    {
      assert [] + rest == rest;
      if Receive(fpu, rest).Some? { assert [] + Receive(fpu, rest).value == Receive(fpu, rest).value; }
    }
  }

  lemma ConveysBoth(fpu: Fpu, a: seq<byte>, ra: seq<Report>, b: seq<byte>, rb: seq<Report>)
    requires Conveys(fpu, a, ra) && Conveys(fpu, b, rb)
    ensures Conveys(fpu, a + b, ra + rb)
  {
    hide Receive;
    forall rest
      ensures Receive(fpu, (a + b) + rest) == Prepend(ra + rb, Receive(fpu, rest))
    {
      var later := Receive(fpu, rest);
      assert (a + b) + rest == a + (b + rest);
      assert Receive(fpu, a + (b + rest)) == Prepend(ra, Receive(fpu, b + rest));
      if later.Some? { assert ra + (rb + later.value) == (ra + rb) + later.value; }
    }
  }

  lemma ConveysOne(fpu: Fpu, frame: seq<byte>, report: Report)
    requires forall rest :: ReceiveOne(fpu, frame + rest) == Some((report, |frame|))
    ensures Conveys(fpu, frame, [report])
  {
    forall rest
      ensures Receive(fpu, frame + rest) == Prepend([report], Receive(fpu, rest))
    {
      assert ReceiveOne(fpu, frame + rest) == Some((report, |frame|));
      assert (frame + rest)[|frame|..] == rest;
    }
  }

  lemma {:induction false} FramesAreReceived(fpu: Fpu, c: ChannelConfig, values: seq<Scalar>, index: byte, room: nat)
    requires ValidChannelConfig(c) && index <= c.quantity <= |values|
    requires forall k :: index <= k < c.quantity ==> FitsField(c, values[k])
    requires ValueFrames(fpu, c, values, index, room).Bytes?
    ensures Conveys(fpu, ValueFrames(fpu, c, values, index, room).bytes, ReportsFrom(c, CarriedAll(fpu, c, values), index))
    decreases c.quantity - index
  {
    var carried := CarriedAll(fpu, c, values);
    if index == c.quantity {
      ConveysNothing(fpu);
    } else {
      var data := ScalarBytes(fpu, c, values[index]).value;
      var frame := ValueHeader(c, index) + data;
      var later := ValueFrames(fpu, c, values, index + 1, room - 4 - |data|).bytes;
      FramesAreReceived(fpu, c, values, index + 1, room - 4 - |data|);
      forall rest
        ensures ReceiveOne(fpu, frame + rest) == Some((ReportAt(c, carried, index), |frame|))
      {
        FrameIsReceived(fpu, c, values, index, rest);
      }
      ConveysOne(fpu, frame, ReportAt(c, carried, index));
      ConveysBoth(fpu, frame, [ReportAt(c, carried, index)], later, ReportsFrom(c, carried, index + 1));
    }
  }

  lemma FailureIsReceived(fpu: Fpu, c: ChannelConfig)
    requires ValidChannelConfig(c)
    ensures Conveys(fpu, PollFailure(c, 24).bytes, [CollectionFailure(c.slot)])
  {
    ConveysOne(fpu, PollFailure(c, 24).bytes, CollectionFailure(c.slot));
  }

  // A value read from the wire: one its field has room for; a float32 is a widened float.
  ghost predicate FromWire(fpu: Fpu, c: ChannelConfig, v: Scalar) {
    FitsField(c, v) && (Float32(c) ==> exists bits: u32 :: v == Floating(fpu.widen(bits)))
  }

  // A widened float survives narrowing and widening, as on a processor that merely quiets NaNs.
  ghost predicate WideningSettles(fpu: Fpu) {
    forall bits: u32 :: fpu.widen(fpu.narrow(fpu.widen(bits))) == fpu.widen(bits)
  }

  lemma RegisterValueIsFromWire(fpu: Fpu, c: ChannelConfig, raw: seq<byte>)
    requires ValidChannelConfig(c) && !IsBooleanType(c.dataType) && |raw| == BytesPerValue(c.dataType)
    ensures FromWire(fpu, c, RegisterValue(fpu, c, raw))
  {
    Pow256Values();
    if |raw| == OrderedWidth(c.dataType) {
      var bytes := Ordered(c.dataType, raw);
      FromBeBound(bytes);
      if Float32(c) {
        var bits: u32 := FromBe(bytes);
        assert RegisterValue(fpu, c, raw) == Floating(fpu.widen(bits));
      }
    }
    if |raw| == 4 { FromBeBound(raw[..2]); FromBeBound(raw[2..]); }
  }

  lemma ResponseIsFromWire(fpu: Fpu, c: ChannelConfig, frame: seq<byte>, k: nat)
    requires ReadResponse(fpu, c, frame).Values? && k < c.quantity
    ensures FromWire(fpu, c, ReadResponse(fpu, c, frame).values[k])
  {
    hide CrcOk, RegisterValue;
    var data := frame[3..3 + DataBytes(c)];
    assert ReadResponse(fpu, c, frame).values[k] == ValueAt(fpu, c, data, k);
    if !IsBooleanType(c.dataType) {
      var n := BytesPerValue(c.dataType);
      RegisterValueIsFromWire(fpu, c, data[k * n..k * n + n]);
    }
  }

  // A value from the wire is carried whole; a float32 if widening settles.
  lemma WireValueIsCarried(fpu: Fpu, c: ChannelConfig, v: Scalar)
    requires FromWire(fpu, c, v) && (Float32(c) ==> WideningSettles(fpu))
    ensures Carried(fpu, c, v) == v
  {
    if Float32(c) { var bits: u32 :| v == Floating(fpu.widen(bits)); }
  }

  lemma ReadingReachesRadio(fpu: Fpu, c: ChannelConfig, values: seq<Scalar>)
    requires ValidChannelConfig(c) && |values| == 2
    requires forall k :: 0 <= k < c.quantity ==> FitsField(c, values[k])
    ensures var encoded := PollSuccess(fpu, c, values, c.quantity, 24);
            encoded.Bytes? && |encoded.bytes| == c.quantity * (4 + Width(c)) <= 24 &&
            Conveys(fpu, encoded.bytes, ReportsFrom(c, CarriedAll(fpu, c, values), 0))
  {
    assert c.quantity * (4 + Width(c)) <= 24;
    FramesLength(fpu, c, values, 0, 24);
    FramesAreReceived(fpu, c, values, 0, 24);
  }

  // Main result, on any processor: whatever a read response delivers is encoded without error in
  // at most 24 bytes, and a receiver gets what the fields carry of it. That is the values
  // themselves, for float32 channels if widening settles.
  lemma FieldbusToRadio(fpu: Fpu, c: ChannelConfig, frame: seq<byte>, values: seq<Scalar>)
    requires ReadResponse(fpu, c, frame).Values? && |values| == 2
    requires ReadResponse(fpu, c, frame).values == values[..c.quantity]
    ensures var encoded := PollSuccess(fpu, c, values, c.quantity, 24);
            encoded.Bytes? && |encoded.bytes| == c.quantity * (4 + Width(c)) <= 24 &&
            Receive(fpu, encoded.bytes) == Some(ReportsFrom(c, CarriedAll(fpu, c, values), 0))
    ensures (Float32(c) ==> WideningSettles(fpu)) ==>
              CarriedAll(fpu, c, values)[..c.quantity] == ReadResponse(fpu, c, frame).values
  {
    hide Carried, WideningSettles, FitsField, Float32;
    AcceptedResponseIsReading(fpu, c, frame);
    forall k | 0 <= k < c.quantity
      ensures FromWire(fpu, c, values[k])
      ensures (Float32(c) ==> WideningSettles(fpu)) ==> Carried(fpu, c, values[k]) == values[k]
    {
      ResponseIsFromWire(fpu, c, frame, k);
      assert values[k] == values[..c.quantity][k];
      if Float32(c) ==> WideningSettles(fpu) { WireValueIsCarried(fpu, c, values[k]); }
    }
    ReadingReachesRadio(fpu, c, values);
    ConveysAlone(fpu, PollSuccess(fpu, c, values, c.quantity, 24).bytes, ReportsFrom(c, CarriedAll(fpu, c, values), 0));
  }

  lemma ConveysAlone(fpu: Fpu, bytes: seq<byte>, reports: seq<Report>)
    requires Conveys(fpu, bytes, reports)
    ensures Receive(fpu, bytes) == Some(reports)
  {
    assert bytes + [] == bytes;
    assert Receive(fpu, bytes + []) == Prepend(reports, Receive(fpu, []));
    assert reports + [] == reports;
  }
}
