// A conforming fieldbus server, after sections 6.1 to 6.6 and 6.12 of the MODBUS Application
// Protocol V1.1b3: four tables of 65536 entries and the request/response behaviour on them.
// It is the other end of RtuCodec's frames and the yardstick for their meaning.
module RtuDevice {
  import opened Words
  import opened Channel
  import opened Crc
  import opened RtuCodec
  import opened WireTypes

  datatype Device = Device(id: byte, coils: seq<bool>, discrete: seq<bool>, inputs: seq<u16>, holding: seq<u16>)

  predicate ValidDevice(d: Device) {
    |d.coils| == |d.discrete| == |d.inputs| == |d.holding| == 0x10000
  }

  // Eight states to a byte, the first in the least significant bit.
  function PackByte(bits: seq<bool>): (b: nat)
    ensures b < Pow2(|bits|)
  {
    if bits == [] then 0 else (if bits[0] then 1 else 0) + 2 * PackByte(bits[1..])
  }

  function PackChunk(bits: seq<bool>, k: nat): byte
    requires 8 * k < |bits|
  {
    var chunk := bits[8 * k..Min(8 * k + 8, |bits|)];
    Pow2Monotone(|chunk|, 8); Pow2Of8();
    PackByte(chunk)
  }

  function PackBits(bits: seq<bool>): seq<byte> {
    seq((|bits| + 7) / 8, k requires 0 <= k < (|bits| + 7) / 8 => PackChunk(bits, k))
  }

  function RegisterBytes(regs: seq<u16>): seq<byte> {
    seq(2 * |regs|, i requires 0 <= i < 2 * |regs| => if i % 2 == 0 then regs[i / 2] / 256 else regs[i / 2] % 256)
  }

  function RegisterWords(bytes: seq<byte>): seq<u16> {
    seq(|bytes| / 2, i requires 0 <= i < |bytes| / 2 => bytes[2 * i] as int * 256 + bytes[2 * i + 1])
  }

  function Field(frame: seq<byte>, at: nat): u16
    requires at + 1 < |frame|
  {
    frame[at] as int * 256 + frame[at + 1]
  }

  function Replace<T>(s: seq<T>, at: nat, t: seq<T>): (r: seq<T>)
    requires at + |t| <= |s|
    ensures |r| == |s|
  {
    s[..at] + t + s[at + |t|..]
  }

  function ExceptionReply(d: Device, f: byte, code: byte): seq<byte> {
    WithCrc([d.id, if f < 0x80 then f + 0x80 else f, code])
  }

  function ReadReply(d: Device, f: byte, data: seq<byte>): seq<byte>
    requires |data| < 256
  {
    WithCrc([d.id, f, |data|] + data)
  }

  // One request: the new tables and the answer, if any. Damaged frames and frames for other
  // servers get none.
  function Execute(d: Device, frame: seq<byte>): (r: (Device, Option<seq<byte>>))
    requires ValidDevice(d)
    ensures ValidDevice(r.0)
  {
    if |frame| < 8 || !CrcOk(frame) || frame[0] != d.id then (d, None)
    else
      var f, address, field := frame[1], Field(frame, 2), Field(frame, 4);
      if f == READ_COILS || f == READ_DISCRETE then
        if |frame| != 8 || !(1 <= field <= 2000) then (d, Some(ExceptionReply(d, f, 3)))
        else if address + field > 0x10000 then (d, Some(ExceptionReply(d, f, 2)))
        else (d, Some(ReadReply(d, f, PackBits((if f == READ_COILS then d.coils else d.discrete)[address..address + field]))))
      else if f == READ_HOLDING || f == READ_INPUT then
        if |frame| != 8 || !(1 <= field <= 125) then (d, Some(ExceptionReply(d, f, 3)))
        else if address + field > 0x10000 then (d, Some(ExceptionReply(d, f, 2)))
        else (d, Some(ReadReply(d, f, RegisterBytes((if f == READ_HOLDING then d.holding else d.inputs)[address..address + field]))))
      else if f == WRITE_COIL then
        if |frame| != 8 || !(field == 0xff00 || field == 0x0000) then (d, Some(ExceptionReply(d, f, 3)))
        else (d.(coils := d.coils[address := field == 0xff00]), Some(WithCrc(frame[..6])))
      else if f == WRITE_REGISTER then
        if |frame| != 8 then (d, Some(ExceptionReply(d, f, 3)))
        else (d.(holding := d.holding[address := field]), Some(WithCrc(frame[..6])))
      else if f == WRITE_REGISTERS then
        if |frame| < 9 || !(1 <= field <= 123) || frame[6] != 2 * field || |frame| != 9 + 2 * field
        then (d, Some(ExceptionReply(d, f, 3)))
        else if address + field > 0x10000 then (d, Some(ExceptionReply(d, f, 2)))
        else (d.(holding := Replace(d.holding, address, RegisterWords(frame[7..|frame| - 2]))), Some(WithCrc(frame[..6])))
      else (d, Some(ExceptionReply(d, f, 1)))
  }

  // The registers of the bank that a channel's type names.
  function RegisterBank(c: ChannelConfig, d: Device): (table: seq<u16>)
    requires ValidDevice(d) && ValidChannelConfig(c)
    ensures |table| == 0x10000
  {
    if TypeOf(c.dataType).bank.HoldingRegisters? then d.holding else d.inputs
  }

  function BitBank(c: ChannelConfig, d: Device): (table: seq<bool>)
    requires ValidDevice(d) && ValidChannelConfig(c)
    ensures |table| == 0x10000
  {
    if TypeOf(c.dataType).bank.Coils? then d.coils else d.discrete
  }

  // What the channel's k-th position holds in the device, in the bank its type names.
  function DeviceValue(fpu: Fpu, c: ChannelConfig, d: Device, k: nat): Scalar
    requires ValidDevice(d) && ValidChannelConfig(c) && c.address + ReadQuantity(c) <= 0x10000 && k < c.quantity
  {
    if IsBooleanType(c.dataType) then Boolean(BitBank(c, d)[c.address + k])
    else
      var n := RegistersPerValue(c.dataType);
      var at := c.address + k * n;
      RegisterValue(fpu, c, RegisterBytes(RegisterBank(c, d)[at..at + n]))
  }

  function DeviceReading(fpu: Fpu, c: ChannelConfig, d: Device): seq<Scalar>
    requires ValidDevice(d) && ValidChannelConfig(c) && c.address + ReadQuantity(c) <= 0x10000
  {
    seq(c.quantity, k requires 0 <= k < c.quantity => DeviceValue(fpu, c, d, k))
  }

  lemma Be16Field(frame: seq<byte>, at: nat, v: u16)
    requires at + 2 <= |frame| && frame[at..at + 2] == Be16(v)
    ensures Field(frame, at) == v
  {
    assert frame[at] == frame[at..at + 2][0] && frame[at + 1] == frame[at..at + 2][1];
  }

  lemma WordsOfBytes(bytes: seq<byte>)
    requires |bytes| % 2 == 0
    ensures RegisterBytes(RegisterWords(bytes)) == bytes
  {
  }

  // The data a server answers to a read request for the channel.
  function ReadData(c: ChannelConfig, d: Device): (data: seq<byte>)
    requires ValidDevice(d) && ValidChannelConfig(c) && c.address + ReadQuantity(c) <= 0x10000
  {
    var from, to := c.address, c.address + ReadQuantity(c);
    if c.dataType == 0x00 then PackBits(d.coils[from..to])
    else if c.dataType == 0x01 then PackBits(d.discrete[from..to])
    else if FunctionCode(c.dataType) == READ_HOLDING then RegisterBytes(d.holding[from..to])
    else RegisterBytes(d.inputs[from..to])
  }

  lemma ReadIsExecuted(c: ChannelConfig, d: Device, capacity: nat)
    requires ValidDevice(d) && d.id == c.slaveId && ReadRequest(c, capacity).Frame?
    ensures |ReadData(c, d)| == DataBytes(c) < 256
    ensures Execute(d, ReadRequest(c, capacity).bytes) == (d, Some(ReadReply(d, FunctionCode(c.dataType), ReadData(c, d))))
  {
    hide CrcOk, WithCrc;
    var f, q := FunctionCode(c.dataType), ReadQuantity(c);
    var body := [c.slaveId, f] + Be16(c.address) + Be16(q);
    var request := WithCrc(body);
    WithCrcOk(body);
    assert request[..6] == body;
    assert request[2..4] == Be16(c.address) && request[4..6] == Be16(q);
    Be16Field(request, 2, c.address); Be16Field(request, 4, q);
  }

  // Reading: the response to an accepted request is accepted, and carries the device's values.
  lemma ReadDeliversDeviceValues(fpu: Fpu, c: ChannelConfig, d: Device, capacity: nat)
    requires ValidDevice(d) && d.id == c.slaveId && ReadRequest(c, capacity).Frame?
    ensures var (after, reply) := Execute(d, ReadRequest(c, capacity).bytes);
            after == d && reply.Some? && ReadResponse(fpu, c, reply.value) == Values(DeviceReading(fpu, c, d))
  {
    hide CrcOk, WithCrc, Execute, ReadResponse, ReadData;
    ReadIsExecuted(c, d, capacity);
    ReplyIsAccepted(fpu, c, d, FunctionCode(c.dataType), ReadData(c, d));
    if IsBooleanType(c.dataType) { BitsReadBack(fpu, c, d); } else { RegistersReadBack(fpu, c, d); }
  }

  lemma ReplyIsAccepted(fpu: Fpu, c: ChannelConfig, d: Device, f: byte, data: seq<byte>)
    requires ValidChannelConfig(c) && d.id == c.slaveId && f == FunctionCode(c.dataType)
    requires |data| == DataBytes(c) < 256
    ensures ReadResponse(fpu, c, ReadReply(d, f, data))
         == Values(seq(c.quantity, k requires 0 <= k < c.quantity => ValueAt(fpu, c, data, k)))
  {
    var body := [d.id, f, |data|] + data;
    var frame := WithCrc(body);
    WithCrcOk(body);
    assert frame[3..3 + |data|] == data;
  }

  // The function codes of the codec read the banks that the names say.
  lemma BanksAreRead(c: ChannelConfig, d: Device)
    requires ValidDevice(d) && ValidChannelConfig(c)
    ensures !IsBooleanType(c.dataType) ==>
              RegisterBank(c, d) == if FunctionCode(c.dataType) == READ_HOLDING then d.holding else d.inputs
    ensures WritableType(c.dataType) && c.dataType != 0x00 ==> RegisterBank(c, d) == d.holding
    ensures IsBooleanType(c.dataType) ==> BitBank(c, d) == if c.dataType == 0x00 then d.coils else d.discrete
  {
    CodecFollowsNames(c.dataType);
  }

  lemma BitsReadBack(fpu: Fpu, c: ChannelConfig, d: Device)
    requires ValidDevice(d) && ValidChannelConfig(c) && IsBooleanType(c.dataType)
    requires c.address + c.quantity <= 0x10000 && |ReadData(c, d)| == DataBytes(c)
    ensures forall k :: 0 <= k < c.quantity ==> ValueAt(fpu, c, ReadData(c, d), k) == DeviceValue(fpu, c, d, k)
  {
    BanksAreRead(c, d);
    hide Crc16Of, TypeOf, BitBank, RegisterBank, PackBits;
    PackedBits(BitBank(c, d)[c.address..c.address + c.quantity]);
  }

  lemma PackedBits(bits: seq<bool>)
    requires 1 <= |bits| <= 2
    ensures |PackBits(bits)| == 1 && forall k :: 0 <= k < |bits| ==> (PackBits(bits)[0] / Pow2(k) % 2 == 1 <==> bits[k])
  {
    assert bits[0..Min(8, |bits|)] == bits;
    assert PackBits(bits)[0] == PackByte(bits);
    assert PackByte(bits[1..]) == if |bits| == 1 then 0 else if bits[1] then 1 else 0 by {
      if |bits| == 2 { assert PackByte(bits[1..][1..]) == 0; }
    }
    assert Pow2(0) == 1 && Pow2(1) == 2;
  }

  lemma RegistersReadBack(fpu: Fpu, c: ChannelConfig, d: Device)
    requires ValidDevice(d) && ValidChannelConfig(c) && !IsBooleanType(c.dataType)
    requires c.address + ReadQuantity(c) <= 0x10000 && |ReadData(c, d)| == DataBytes(c)
    ensures forall k :: 0 <= k < c.quantity ==> ValueAt(fpu, c, ReadData(c, d), k) == DeviceValue(fpu, c, d, k)
  {
    forall k | 0 <= k < c.quantity
      ensures ValueAt(fpu, c, ReadData(c, d), k) == DeviceValue(fpu, c, d, k)
    {
      RegisterReadBack(fpu, c, d, k, RegistersPerValue(c.dataType));
    }
  }

  lemma RegisterReadBack(fpu: Fpu, c: ChannelConfig, d: Device, k: nat, n: nat)
    requires ValidDevice(d) && ValidChannelConfig(c) && !IsBooleanType(c.dataType)
    requires c.address + ReadQuantity(c) <= 0x10000 && |ReadData(c, d)| == DataBytes(c)
    requires k < c.quantity && n == RegistersPerValue(c.dataType)
    ensures ValueAt(fpu, c, ReadData(c, d), k) == DeviceValue(fpu, c, d, k)
  {
    hide Crc16Of, RegisterValue;
    var table := RegisterBank(c, d);
    BanksAreRead(c, d);
    var size := ReadQuantity(c);
    var at := if k == 0 then 0 else n;
    assert k * n == at && k * (2 * n) == 2 * at;
    SliceOfBytes(table[c.address..c.address + size], at, n);
    SliceOfSlice(table, c.address, size, at, n);
  }

  lemma SliceOfBytes(regs: seq<u16>, at: nat, n: nat)
    requires at + n <= |regs|
    ensures RegisterBytes(regs)[2 * at..2 * at + 2 * n] == RegisterBytes(regs[at..at + n])
  {
  }

  // The tables after a write of one value.
  function Written(fpu: Fpu, c: ChannelConfig, index: byte, v: Scalar, d: Device): Device
    requires ValidDevice(d) && WriteRequest(fpu, c, index, v, 17).Frame?
  {
    if c.dataType == 0x00 then d.(coils := d.coils[c.address + index := v.truth])
    else
      var words := RegistersPerValue(c.dataType);
      d.(holding := Replace(d.holding, c.address + index * words, RegisterWords(WireValue(fpu, c, v).value)))
  }

  lemma CoilWriteIsExecuted(d: Device, frame: seq<byte>, address: u16, truth: bool)
    requires ValidDevice(d) && |frame| == 8 && CrcOk(frame) && frame[0] == d.id && frame[1] == WRITE_COIL
    requires Field(frame, 2) == address && Field(frame, 4) == if truth then 0xff00 else 0
    ensures Execute(d, frame) == (d.(coils := d.coils[address := truth]), Some(WithCrc(frame[..6])))
  {
  }

  lemma RegisterWriteIsExecuted(d: Device, frame: seq<byte>, address: u16, wire: seq<byte>)
    requires ValidDevice(d) && |frame| == 8 && CrcOk(frame) && frame[0] == d.id && frame[1] == WRITE_REGISTER
    requires Field(frame, 2) == address && |wire| == 2 && Field(frame, 4) == wire[0] as int * 256 + wire[1]
    ensures Execute(d, frame) == (d.(holding := Replace(d.holding, address, RegisterWords(wire))), Some(WithCrc(frame[..6])))
  {
    assert RegisterWords(wire) == [Field(frame, 4)];
    assert Replace(d.holding, address, RegisterWords(wire)) == d.holding[address := Field(frame, 4)];
  }

  lemma RegistersWriteIsExecuted(d: Device, frame: seq<byte>, address: u16, words: byte, wire: seq<byte>)
    requires ValidDevice(d) && |frame| == 9 + |wire| && CrcOk(frame) && frame[0] == d.id && frame[1] == WRITE_REGISTERS
    requires Field(frame, 2) == address && Field(frame, 4) == words && frame[6] == |wire| == 2 * words as int
    requires 1 <= words <= 4 && address + words <= 0x10000 && frame[7..|frame| - 2] == wire
    ensures Execute(d, frame) == (d.(holding := Replace(d.holding, address, RegisterWords(wire))), Some(WithCrc(frame[..6])))
  {
  }

  lemma WriteIsExecuted(fpu: Fpu, c: ChannelConfig, index: byte, v: Scalar, d: Device)
    requires ValidDevice(d) && d.id == c.slaveId && WriteRequest(fpu, c, index, v, 17).Frame?
    ensures var request := WriteRequest(fpu, c, index, v, 17).bytes;
            Execute(d, request) == (Written(fpu, c, index, v, d), Some(WithCrc(request[..6])))
  {
    hide CrcOk, WithCrc, WireValue, RegisterWords, Replace;
    var request := WriteRequest(fpu, c, index, v, 17).bytes;
    if c.dataType == 0x00 {
      SingleWriteFrame(c.slaveId, WRITE_COIL, c.address + index, if v.truth then 0xff else 0x00, 0x00);
      CoilWriteIsExecuted(d, request, c.address + index, v.truth);
    } else {
      var words := RegistersPerValue(c.dataType);
      var address := c.address + index * words;
      var wire := WireValue(fpu, c, v).value;
      if words == 1 {
        assert wire == [wire[0], wire[1]];
        SingleWriteFrame(c.slaveId, WRITE_REGISTER, address, wire[0], wire[1]);
        RegisterWriteIsExecuted(d, request, address, wire);
      } else {
        MultipleWriteFrame(c.slaveId, address, words, wire);
        RegistersWriteIsExecuted(d, request, address, words, wire);
      }
    }
  }

  lemma SingleWriteFrame(id: byte, f: byte, address: u16, high: byte, low: byte)
    ensures var frame := WithCrc([id, f] + Be16(address) + [high, low]);
            |frame| == 8 && CrcOk(frame) && frame[0] == id && frame[1] == f &&
            Field(frame, 2) == address && Field(frame, 4) == high as int * 256 + low
  {
    var body := [id, f] + Be16(address) + [high, low];
    WithCrcOk(body);
    var frame := WithCrc(body);
    assert frame[2..4] == Be16(address);
    Be16Field(frame, 2, address);
  }

  lemma MultipleWriteFrame(id: byte, address: u16, words: byte, wire: seq<byte>)
    requires |wire| == 2 * words as int <= 8
    ensures var frame := WithCrc([id, WRITE_REGISTERS] + Be16(address) + [0x00, words, |wire|] + wire);
            |frame| == 9 + |wire| && CrcOk(frame) && frame[0] == id && frame[1] == WRITE_REGISTERS &&
            Field(frame, 2) == address && Field(frame, 4) == words && frame[6] == |wire| &&
            frame[7..|frame| - 2] == wire
  {
    var body := [id, WRITE_REGISTERS] + Be16(address) + [0x00, words, |wire|] + wire;
    WithCrcOk(body);
    var frame := WithCrc(body);
    assert frame[2..4] == Be16(address);
    Be16Field(frame, 2, address);
  }

  lemma WriteIsAcknowledged(fpu: Fpu, c: ChannelConfig, index: byte, v: Scalar)
    requires WriteRequest(fpu, c, index, v, 17).Frame?
    ensures var request := WriteRequest(fpu, c, index, v, 17).bytes;
            WriteResponse(c, index, request, WithCrc(request[..6])) == (Ok, 0)
  {
    var request := WriteRequest(fpu, c, index, v, 17).bytes;
    WithCrcOk(request[..6]);
    var response := WithCrc(request[..6]);
    assert response[..6] == request[..6];
    assert response[0] == response[..6][0] && response[1] == response[..6][1];
  }

  // The channel's own position of the written value, and any other.
  lemma ReplacedSlice<T>(table: seq<T>, at: nat, values: seq<T>, from: nat)
    requires at + |values| <= |table| && from + |values| <= |table|
    ensures Replace(table, at, values)[at..at + |values|] == values
    ensures from + |values| <= at || at + |values| <= from ==>
              Replace(table, at, values)[from..from + |values|] == table[from..from + |values|]
  {
  }

  lemma HoldingValue(fpu: Fpu, c: ChannelConfig, d: Device, k: nat, from: nat, n: nat)
    requires ValidDevice(d) && ValidChannelConfig(c) && WritableType(c.dataType) && c.dataType != 0x00
    requires c.address + ReadQuantity(c) <= 0x10000 && k < c.quantity && n == RegistersPerValue(c.dataType)
    requires from == c.address + (if k == 0 then 0 else n)
    ensures from + n <= 0x10000
    ensures DeviceValue(fpu, c, d, k) == RegisterValue(fpu, c, RegisterBytes(d.holding[from..from + n]))
  {
    BanksAreRead(c, d);
    assert c.address + k * n == from;
  }

  lemma WrittenRegister(fpu: Fpu, c: ChannelConfig, index: byte, v: Scalar, d: Device, k: nat, at: nat, n: nat)
    requires ValidDevice(d) && ValidChannelConfig(c) && WritableType(c.dataType) && c.dataType != 0x00
    requires c.address + ReadQuantity(c) <= 0x10000 && k < c.quantity && n == RegistersPerValue(c.dataType)
    requires index < c.quantity && at == c.address + (if index == 0 then 0 else n) && at + n <= 0x10000
    requires WireValue(fpu, c, v).Some?
    ensures DeviceValue(fpu, c, d.(holding := Replace(d.holding, at, RegisterWords(WireValue(fpu, c, v).value))), k)
         == if k == index then Stored(fpu, c, v) else DeviceValue(fpu, c, d, k)
  {
    hide DeviceValue, RegisterValue, TypeOf, WireValue, Stored;
    var wire := WireValue(fpu, c, v).value;
    var from := c.address + (if k == 0 then 0 else n);
    var after := d.(holding := Replace(d.holding, at, RegisterWords(wire)));
    HoldingValue(fpu, c, d, k, from, n);
    HoldingValue(fpu, c, after, k, from, n);
    ReplacedSlice(d.holding, at, RegisterWords(wire), from);
    if k == index {
      WordsOfBytes(wire);
      RegisterValueRoundTrip(fpu, c, v);
    }
  }

  lemma WrittenValue(fpu: Fpu, c: ChannelConfig, index: byte, v: Scalar, d: Device, k: nat)
    requires ValidDevice(d) && WriteRequest(fpu, c, index, v, 17).Frame?
    requires c.address + ReadQuantity(c) <= 0x10000 && k < c.quantity
    ensures DeviceValue(fpu, c, Written(fpu, c, index, v, d), k)
         == if k == index then Stored(fpu, c, v) else DeviceValue(fpu, c, d, k)
  {
    hide WithCrc, WireValue;
    BanksAreRead(c, d);
    BanksAreRead(c, Written(fpu, c, index, v, d));
    hide TypeOf, BitBank, RegisterBank, RegisterValue;
    if c.dataType != 0x00 {
      var n := RegistersPerValue(c.dataType);
      var at := c.address + (if index == 0 then 0 else n);
      assert c.address + index * n == at;
      WrittenRegister(fpu, c, index, v, d, k, at, n);
    }
  }

  // A poll of the device: send the read request, decode the answer.
  function Poll(fpu: Fpu, c: ChannelConfig, d: Device, capacity: nat): ReadOutcome
    requires ValidDevice(d) && ReadRequest(c, capacity).Frame?
  {
    match Execute(d, ReadRequest(c, capacity).bytes).1
    case None => Fault(Truncated)
    case Some(answer) => ReadResponse(fpu, c, answer)
  }

  // A write to the device: its new tables, and the verdict on its answer.
  function Write(fpu: Fpu, c: ChannelConfig, index: byte, v: Scalar, d: Device): (r: (Device, (RtuStatus, byte)))
    requires ValidDevice(d) && WriteRequest(fpu, c, index, v, 17).Frame?
    ensures ValidDevice(r.0)
  {
    var request := WriteRequest(fpu, c, index, v, 17).bytes;
    var (after, answer) := Execute(d, request);
    match answer
    case None => (after, (Truncated, 0))
    case Some(bytes) => (after, WriteResponse(c, index, request, bytes))
  }

  // Main result: write one value through the codec, let a conforming server execute the frame,
  // and poll the channel. The write is acknowledged; the poll delivers what it delivered before,
  // except that the written position holds the written value (for a float32 register, the
  // nearest float).
  lemma WriteReadRoundTrip(fpu: Fpu, c: ChannelConfig, index: byte, v: Scalar, d: Device, capacity: nat)
    requires ValidDevice(d) && d.id == c.slaveId
    requires WriteRequest(fpu, c, index, v, 17).Frame? && ReadRequest(c, capacity).Frame?
    ensures var (d', verdict) := Write(fpu, c, index, v, d);
            var before := Poll(fpu, c, d, capacity);
            verdict == (Ok, 0) && before.Values? && index < |before.values| == c.quantity &&
            Poll(fpu, c, d', capacity) == Values(before.values[index := Stored(fpu, c, v)])
  {
    hide WithCrc, Execute, ReadResponse, DeviceValue;
    var d' := Written(fpu, c, index, v, d);
    WriteIsExecuted(fpu, c, index, v, d);
    WriteIsAcknowledged(fpu, c, index, v);
    ReadDeliversDeviceValues(fpu, c, d, capacity);
    ReadDeliversDeviceValues(fpu, c, d', capacity);
    forall k | 0 <= k < c.quantity
      ensures DeviceReading(fpu, c, d')[k] == DeviceReading(fpu, c, d)[index := Stored(fpu, c, v)][k]
    {
      WrittenValue(fpu, c, index, v, d, k);
    }
  }
}
