// The RTU frames of the fieldbus: requests, responses and register values.
module RtuCodec {
  import opened Words
  import opened Channel
  import opened Crc

  datatype RtuStatus =
    | Ok | InvalidConfig | BufferTooSmall | Truncated | CrcMismatch
    | SlaveMismatch | FunctionMismatch | ExceptionResponse | LengthMismatch

  const READ_COILS: byte := 0x01
  const READ_DISCRETE: byte := 0x02
  const READ_HOLDING: byte := 0x03
  const READ_INPUT: byte := 0x04
  const WRITE_COIL: byte := 0x05
  const WRITE_REGISTER: byte := 0x06
  const WRITE_REGISTERS: byte := 0x10

  function FunctionCode(raw: byte): byte {
    if raw == 0x00 then READ_COILS
    else if raw == 0x01 then READ_DISCRETE
    else if 0x02 <= raw <= 0x0d || 0x1a <= raw <= 0x21 then READ_INPUT
    else if 0x0e <= raw <= 0x19 || 0x22 <= raw <= 0x29 then READ_HOLDING
    else 0
  }

  function RegistersPerValue(raw: byte): byte {
    if raw <= 0x03 || 0x0e <= raw <= 0x0f then 1
    else if 0x04 <= raw <= 0x0d || 0x10 <= raw <= 0x19 then 2
    else if 0x1a <= raw <= 0x29 then 4
    else 0
  }

  function ReadQuantity(c: ChannelConfig): u16 {
    if !ValidChannelConfig(c) then 0
    else if IsBooleanType(c.dataType) then c.quantity
    else RegistersPerValue(c.dataType) * c.quantity
  }

  predicate WritableType(raw: byte) {
    raw == 0x00 || raw == 0x0e || raw == 0x0f || 0x10 <= raw <= 0x13 || 0x16 <= raw <= 0x19 || 0x22 <= raw <= 0x29
  }

  function OrderedWidth(raw: byte): nat {
    if 0x02 <= raw <= 0x03 || 0x0e <= raw <= 0x0f then 2
    else if 0x04 <= raw <= 0x07 || 0x0a <= raw <= 0x0d || 0x10 <= raw <= 0x13 || 0x16 <= raw <= 0x19 then 4
    else if 0x1a <= raw <= 0x29 then 8
    else 0
  }

  // ---- checksummed frames ----

  function WithCrc(body: seq<byte>): (frame: seq<byte>)
    ensures |frame| == |body| + 2
  {
    body + ToLe(Crc16Of(body), 2)
  }

  predicate CrcOk(frame: seq<byte>)
    requires |frame| >= 2
  {
    Crc16Of(frame[..|frame| - 2]) == Le16(frame[|frame| - 2], frame[|frame| - 1])
  }

  lemma WithCrcOk(body: seq<byte>)
    ensures CrcOk(WithCrc(body)) && WithCrc(body)[..|body|] == body
  {
    hide Crc16Of;
    Crc16Range(body);
    var crc := Crc16Of(body);
    assert ToLe(crc, 2) == [crc % 256] + ToLe(crc / 256, 1);
    assert ToLe(crc / 256, 1) == [crc / 256 % 256] + ToLe(crc / 256 / 256, 0);
  }

  // A burst of at most two consecutive bytes anywhere in a frame, its CRC bytes included,
  // breaks the checksum.
  lemma BurstBreaksCrc(frame: seq<byte>, damaged: seq<byte>, at: nat, size: nat)
    requires |frame| >= 2 && CrcOk(frame)
    requires DifferOnlyIn(frame, damaged, at, size) && size <= 2 && frame != damaged
    ensures !CrcOk(damaged)
  {
    hide Register, Xor, Steps, FromLe;
    var n := |frame| - 2;
    FirmwarePolynomials();
    assert frame == frame[..n] + frame[n..] && damaged == damaged[..n] + damaged[n..];
    FromLeOf2(frame[n..]); FromLeOf2(damaged[n..]);
    XorZero(Crc16Of(frame[..n])); XorZero(Crc16Of(damaged[..n]));
    BurstBreaksCodeword(POLY_16, 16, INIT_16, 0, frame[..n], frame[n..], damaged[..n], damaged[n..], at, size);
  }

  // ---- byte order of register values ----

  // The order in which bytes of a width stand on the wire for this type, as positions, if the
  // width has one.
  function OrderFor(raw: byte, width: nat): (order: Option<seq<nat>>)
    ensures order.Some? ==> |order.value| == width
    ensures order.Some? ==> forall i :: 0 <= i < |order.value| ==> order.value[i] < width
  {
    if width == 2 then Some(if raw == 0x03 || raw == 0x0f then [1, 0] else [0, 1])
    else if width == 4 && OrderedWidth(raw) == 4 then
      var base := if 0x04 <= raw <= 0x07 then 0x04 else if 0x0a <= raw <= 0x0d then 0x0a
                  else if 0x10 <= raw <= 0x13 then 0x10 else 0x16;
      Some([[0, 1, 2, 3], [1, 0, 3, 2], [2, 3, 0, 1], [3, 2, 1, 0]][raw - base])
    else if width == 8 then
      var variant := if raw <= 0x21 then (raw - 0x1a) % 4 else (raw - 0x22) % 4;
      Some([[0, 1, 2, 3, 4, 5, 6, 7], [6, 7, 4, 5, 2, 3, 0, 1],
            [1, 0, 3, 2, 5, 4, 7, 6], [7, 6, 5, 4, 3, 2, 1, 0]][variant])
    else None
  }

  // The order of the type's own width.
  function ByteOrder(raw: byte): (order: seq<nat>)
    ensures |order| == OrderedWidth(raw)
    ensures forall i :: 0 <= i < |order| ==> order[i] < |order|
  {
    match OrderFor(raw, OrderedWidth(raw))
    case None => []
    case Some(order) => order
  }

  function Ordered(raw: byte, s: seq<byte>): (t: seq<byte>)
    requires |s| == OrderedWidth(raw)
    ensures |t| == |s|
  {
    seq(|s|, i requires 0 <= i < |s| => s[ByteOrder(raw)[i]])
  }

  // Every byte order is its own inverse, so one table serves reads and writes.
  lemma OrderIsInvolution(raw: byte, s: seq<byte>)
    requires |s| == OrderedWidth(raw)
    ensures Ordered(raw, Ordered(raw, s)) == s
  {
    if |s| != 0 { SelfInverse(raw, |s|); }
    var twice := Ordered(raw, Ordered(raw, s));
    hide OrderFor;
    forall i | 0 <= i < |s|
      ensures twice[i] == s[i]
    {
      assert ByteOrder(raw)[ByteOrder(raw)[i]] == i;
    }
  }

  lemma SelfInverse(raw: byte, width: nat)
    requires OrderFor(raw, width).Some?
    ensures var order := OrderFor(raw, width).value; forall i :: 0 <= i < width ==> order[order[i]] == i
  {
    var order := OrderFor(raw, width).value;
    if width == 8 {
      assert order[order[0]] == 0 && order[order[1]] == 1 && order[order[2]] == 2 && order[order[3]] == 3;
      assert order[order[4]] == 4 && order[order[5]] == 5 && order[order[6]] == 6 && order[order[7]] == 7;
    } else if width == 4 {
      assert order[order[0]] == 0 && order[order[1]] == 1 && order[order[2]] == 2 && order[order[3]] == 3;
    }
  }

  method OrderBytes(dataType: byte, raw: seq<byte>, width: nat, ordered: array<byte>) returns (ok: bool)
    requires width == 2 || width == 4 || width == 8 ==> |raw| >= width && ordered.Length >= width
    modifies ordered
    ensures ok == OrderFor(dataType, width).Some?
    ensures ok ==> forall k :: 0 <= k < width ==> ordered[k] == raw[OrderFor(dataType, width).value[k]]
    ensures if ok then ordered[width..] == old(ordered[width..]) else ordered[..] == old(ordered[..])
  {
    if width == 2 {
      var swapped := dataType == 0x03 || dataType == 0x0f;
      ordered[0] := raw[if swapped then 1 else 0];
      ordered[1] := raw[if swapped then 0 else 1];
      assert OrderFor(dataType, 2).value == if swapped then [1, 0] else [0, 1];
      return true;
    }
    if width == 4 {
      var base;
      if 0x04 <= dataType <= 0x07 { base := 0x04; }
      else if 0x0a <= dataType <= 0x0d { base := 0x0a; }
      else if 0x10 <= dataType <= 0x13 { base := 0x10; }
      else if 0x16 <= dataType <= 0x19 { base := 0x16; }
      else { return false; }
      PutOrdered([[0, 1, 2, 3], [1, 0, 3, 2], [2, 3, 0, 1], [3, 2, 1, 0]][dataType - base], raw, ordered);
      return true;
    }
    if width == 8 {
      var variant := if dataType <= 0x21 then (dataType - 0x1a) % 4 else (dataType - 0x22) % 4;
      PutOrdered([[0, 1, 2, 3, 4, 5, 6, 7], [6, 7, 4, 5, 2, 3, 0, 1],
                  [1, 0, 3, 2, 5, 4, 7, 6], [7, 6, 5, 4, 3, 2, 1, 0]][variant], raw, ordered);
      return true;
    }
    return false;
  }

  // At the type's own width the shuffled bytes are the ordered ones.
  lemma ShuffledIsOrdered(dataType: byte, raw: seq<byte>, shuffled: seq<byte>)
    requires |shuffled| == |raw| == OrderedWidth(dataType) != 0 && OrderFor(dataType, |raw|).Some?
    requires forall k :: 0 <= k < |raw| ==> shuffled[k] == raw[OrderFor(dataType, |raw|).value[k]]
    ensures shuffled == Ordered(dataType, raw)
  {
    hide OrderFor;
    var wanted := Ordered(dataType, raw);
    assert ByteOrder(dataType) == OrderFor(dataType, |raw|).value;
    forall k | 0 <= k < |raw|
      ensures shuffled[k] == wanted[k]
    {
    }
  }

  lemma OwnWidthHasOrder(raw: byte)
    requires OrderedWidth(raw) != 0
    ensures OrderFor(raw, OrderedWidth(raw)).Some?
  {
  }

  // The copy loop over a row of the order table.
  method PutOrdered(order: seq<nat>, raw: seq<byte>, ordered: array<byte>)
    requires |order| <= ordered.Length && forall k :: 0 <= k < |order| ==> order[k] < |raw|
    modifies ordered
    ensures forall k :: 0 <= k < |order| ==> ordered[k] == raw[order[k]]
    ensures ordered[|order|..] == old(ordered[|order|..])
  {
    for i := 0 to |order|
      invariant forall k :: 0 <= k < i ==> ordered[k] == raw[order[k]]
      invariant ordered[|order|..] == old(ordered[|order|..])
    {
      ordered[i] := raw[order[i]];
    }
  }

  // ---- register values ----

  // The bytes of a value, most significant first, when the value fits the channel's type.
  function Canonical(fpu: Fpu, c: ChannelConfig, v: Scalar): (r: Option<seq<byte>>)
    ensures r.Some? ==> |r.value| == OrderedWidth(c.dataType)
  {
    var width := OrderedWidth(c.dataType);
    if width == 0 then None
    else if IsFloatingPointType(c.dataType) then
      if !v.Floating? then None
      else if width == 4 then Some(ToBe(fpu.narrow(v.bits), 4))
      else Some(ToBe(v.bits, 8))
    else if c.signedValue then
      if v.Signed? && -Pow256(width) <= 2 * v.i < Pow256(width)
      then Some(ToBe(if v.i < 0 then v.i + Pow256(width) else v.i, width)) else None
    else
      if v.Unsigned? && v.u < Pow256(width) then Some(ToBe(v.u, width)) else None
  }

  function WireValue(fpu: Fpu, c: ChannelConfig, v: Scalar): (r: Option<seq<byte>>)
    ensures r.Some? ==> |r.value| == OrderedWidth(c.dataType)
  {
    match Canonical(fpu, c, v)
    case None => None
    case Some(bytes) => Some(Ordered(c.dataType, bytes))
  }

  // An integer of n bytes read as the channel's signedness says.
  function IntegerOf(c: ChannelConfig, raw: nat, n: nat): Scalar
    requires 0 < n <= 8 && raw < Pow256(n)
  {
    Pow256Small();
    if !c.signedValue then Unsigned(raw)
    else Signed(if 2 * raw >= Pow256(n) then raw - Pow256(n) else raw)
  }

  lemma Pow256Small()
    ensures forall n :: 0 <= n <= 8 ==> Pow256(n) <= TWO_64
  {
    Pow256Values();
    assert Pow256(0) == 1 && Pow256(3) == 256 * Pow256(2) && Pow256(5) == 256 * Pow256(4);
    assert Pow256(6) == 256 * Pow256(5) && Pow256(7) == 256 * Pow256(6);
  }

  // Bytes one value occupies in a read response.
  function BytesPerValue(raw: byte): nat {
    2 * RegistersPerValue(raw)
  }

  // The scalar that the register bytes of one value stand for.
  function RegisterValue(fpu: Fpu, c: ChannelConfig, raw: seq<byte>): Scalar
    requires ValidWireDataType(c.dataType) && !IsBooleanType(c.dataType)
    requires |raw| == BytesPerValue(c.dataType)
  {
    Pow256Values();
    if c.dataType == 0x08 || c.dataType == 0x14 then FromBeBound(raw[..2]); IntegerOf(c, FromBe(raw[..2]), 2)
    else if c.dataType == 0x09 || c.dataType == 0x15 then FromBeBound(raw[2..]); IntegerOf(c, FromBe(raw[2..]), 2)
    else
      var bytes := Ordered(c.dataType, raw);
      FromBeBound(bytes);
      if !IsFloatingPointType(c.dataType) then IntegerOf(c, FromBe(bytes), |bytes|)
      else if |bytes| == 4 then Floating(fpu.widen(FromBe(bytes)))
      else Floating(FromBe(bytes))
  }

  // What a stored value reads back as: itself, except that a float32 register holds the
  // nearest float.
  function Stored(fpu: Fpu, c: ChannelConfig, v: Scalar): Scalar {
    if v.Floating? && OrderedWidth(c.dataType) == 4 then Floating(fpu.widen(fpu.narrow(v.bits))) else v
  }

  lemma RegisterValueRoundTrip(fpu: Fpu, c: ChannelConfig, v: Scalar)
    requires ValidChannelConfig(c) && WritableType(c.dataType) && c.dataType != 0x00
    requires WireValue(fpu, c, v).Some?
    ensures RegisterValue(fpu, c, WireValue(fpu, c, v).value) == Stored(fpu, c, v)
  {
    var bytes := Canonical(fpu, c, v).value;
    OrderIsInvolution(c.dataType, bytes);
    Pow256Values();
    var n := |bytes|;
    if v.Floating? {
      FromBeToBe(if n == 4 then fpu.narrow(v.bits) else v.bits, n);
    } else if v.Signed? {
      FromBeToBe(if v.i < 0 then v.i + Pow256(n) else v.i, n);
    } else {
      FromBeToBe(v.u, n);
    }
  }

  // The converse: writing back what a register reads as leaves its bytes unchanged, except that a
  // float32 register keeps its bits exactly when the processor narrows the widened float to them.
  lemma WriteBackIsIdentity(fpu: Fpu, c: ChannelConfig, raw: seq<byte>)
    requires ValidChannelConfig(c) && WritableType(c.dataType) && c.dataType != 0x00
    requires |raw| == BytesPerValue(c.dataType)
    ensures WireValue(fpu, c, RegisterValue(fpu, c, raw)) == Some(raw) <==>
            (IsFloatingPointType(c.dataType) && |raw| == 4 ==>
               var bits := FloatBits(c, raw); fpu.narrow(fpu.widen(bits)) == bits)
  {
    hide Ordered, FromBe, ToBe, ByteOrder;
    var bytes := Ordered(c.dataType, raw);
    FromBeBound(bytes);
    Pow256Values();
    OrderIsInvolution(c.dataType, raw);
    ToBeFromBe(bytes);
    if IsFloatingPointType(c.dataType) && |raw| == 4 {
      var back := ToBe(fpu.narrow(fpu.widen(FloatBits(c, raw))), 4);
      FromBeToBe(fpu.narrow(fpu.widen(FloatBits(c, raw))), 4);
      OrderIsInvolution(c.dataType, back);
    }
  }

  // The bits of the float a float32 register holds.
  function FloatBits(c: ChannelConfig, raw: seq<byte>): u32
    requires |raw| == OrderedWidth(c.dataType) == 4
  {
    FromBeBound(Ordered(c.dataType, raw));
    Pow256Values();
    FromBe(Ordered(c.dataType, raw))
  }

  // The checks and the masking ahead of the byte loops.
  method RegisterBits(fpu: Fpu, c: ChannelConfig, value: Scalar, width: nat) returns (ok: bool, raw: nat)
    requires width == OrderedWidth(c.dataType) != 0
    ensures ok == Canonical(fpu, c, value).Some?
    ensures ok ==> Canonical(fpu, c, value) == Some(ToBe(raw, width))
  {
    hide ToBe, Pow256;
    Pow256Values();
    if IsFloatingPointType(c.dataType) {
      if !value.Floating? { return false, 0; }
      return true, if width == 4 then fpu.narrow(value.bits) else value.bits;
    }
    if c.signedValue {
      if !value.Signed? { return false, 0; }
      raw := if value.i < 0 then value.i + TWO_64 else value.i;
    } else {
      if !value.Unsigned? { return false, 0; }
      raw := value.u;
    }
    if width < 8 {
      var range := Pow256(width);
      if c.signedValue {
        if value.i < -(range / 2) || value.i > range / 2 - 1 { return false, 0; }
        if value.i < 0 { WrapsOnce(value.i, width); } else { FitsAlready(raw, range); }
      } else if raw >= range {
        return false, 0;
      } else {
        FitsAlready(raw, range);
      }
      raw := raw % range;
    }
    return true, raw;
  }

  lemma FitsAlready(raw: nat, range: nat)
    requires raw < range
    ensures raw % range == raw
  {
  }

  lemma WrapsOnce(i: int, width: nat)
    requires width == 2 || width == 4
    requires i < 0 && -Pow256(width) <= 2 * i
    ensures (i + TWO_64) % Pow256(width) == i + Pow256(width)
  {
    Pow256Values();
  }

  method EncodeRegisterValue(fpu: Fpu, c: ChannelConfig, value: Scalar, wire: array<byte>)
    returns (ok: bool, written: nat)
    modifies wire
    ensures ok == (WireValue(fpu, c, value).Some? && wire.Length >= OrderedWidth(c.dataType))
    ensures ok ==> written == OrderedWidth(c.dataType) && wire[..written] == WireValue(fpu, c, value).value
    ensures !ok ==> written == 0
  {
    var width := OrderedWidth(c.dataType);
    if width == 0 || wire.Length < width { return false, 0; }
    var raw;
    ok, raw := RegisterBits(fpu, c, value, width);
    if !ok { return false, 0; }
    var canonical := BigEndianBytes(raw, width);
    assert canonical[..width] == canonical;
    hide OrderFor, ByteOrder;
    OwnWidthHasOrder(c.dataType);
    ok := OrderBytes(c.dataType, canonical, width, wire);
    ShuffledIsOrdered(c.dataType, canonical, wire[..width]);
    written := width;
  }

  // The shift loop that lays out a value most significant byte first.
  method BigEndianBytes(raw: nat, width: nat) returns (bytes: seq<byte>)
    ensures bytes == ToBe(raw, width)
  {
    bytes := [];
    var rest := raw;
    for i := 0 to width
      invariant |bytes| == i && ToBe(raw, width) == ToBe(rest, width - i) + bytes
    {
      ghost var before := bytes;
      assert ToBe(rest, width - i) == ToBe(rest / 256, width - i - 1) + [rest % 256];
      bytes := [rest % 256] + bytes;
      assert ToBe(rest / 256, width - i - 1) + bytes == ToBe(rest, width - i) + before;
      rest := rest / 256;
    }
  }

  // Sign extension by mask, as on a 64-bit register.
  method SetInteger(c: ChannelConfig, raw: u64, width: nat) returns (value: Scalar)
    requires (width == 2 || width == 4 || width == 8) && raw < Pow256(width)
    ensures value == IntegerOf(c, raw, width)
  {
    Pow256Values();
    if !c.signedValue { return Unsigned(raw); }
    if width >= 8 { return Signed(if raw >= TWO_63 then raw - TWO_64 else raw); }
    var signBit := if width == 2 then 0x8000 else 0x8000_0000;
    if raw / signBit % 2 == 0 { return Signed(raw); }
    var mask := TWO_64 - 2 * signBit;
    return Signed(raw + mask - TWO_64);
  }

  method DecodeRegisterValue(fpu: Fpu, c: ChannelConfig, raw: seq<byte>) returns (ok: bool, value: Scalar)
    ensures ok <==> ValidWireDataType(c.dataType) && !IsBooleanType(c.dataType) && |raw| == BytesPerValue(c.dataType)
    ensures ok ==> value == RegisterValue(fpu, c, raw)
  {
    value := Unsigned(0);
    if c.dataType == 0x08 || c.dataType == 0x09 || c.dataType == 0x14 || c.dataType == 0x15 {
      if |raw| != 4 { return false, value; }
      var offset := if c.dataType == 0x08 || c.dataType == 0x14 then 0 else 2;
      var half := raw[offset..offset + 2];
      assert half == if offset == 0 then raw[..2] else raw[2..];
      FromBeOf2(half);
      FromBeBound(half);
      Pow256Values();
      value := SetInteger(c, raw[offset] as int * 256 + raw[offset + 1], 2);
      return true, value;
    }
    var width := OrderedWidth(c.dataType);
    if width == 0 || |raw| != width { return false, value; }
    var ordered := new byte[8];
    hide OrderFor, ByteOrder;
    OwnWidthHasOrder(c.dataType);
    ok := OrderBytes(c.dataType, raw, width, ordered);
    ghost var bytes := ordered[..width];
    ShuffledIsOrdered(c.dataType, raw, bytes);
    FromBeBound(bytes);
    Pow256Values();
    var integer: nat := 0;
    for i := 0 to width
      invariant integer == FromBe(ordered[..i])
    {
      assert ordered[..i + 1][..i] == ordered[..i];
      integer := integer * 256 + ordered[i];
    }
    if IsFloatingPointType(c.dataType) {
      return true, if width == 4 then Floating(fpu.widen(integer)) else Floating(integer);
    }
    value := SetInteger(c, integer, width);
    return true, value;
  }

  lemma FromBeOf2(s: seq<byte>)
    requires |s| == 2
    ensures FromBe(s) == s[0] as int * 256 + s[1]
  {
    assert s[..1][..0] == [];
    assert FromBe(s[..1]) == s[0];
  }

  // ---- requests ----

  datatype Built = Frame(bytes: seq<byte>) | Refused(status: RtuStatus)

  function Be16(v: u16): (s: seq<byte>)
    ensures |s| == 2
  {
    [v / 256, v % 256]
  }

  // The request that reads a channel, or the reason there is none.
  function ReadRequest(c: ChannelConfig, capacity: nat): (r: Built)
    ensures r.Frame? ==> ValidChannelConfig(c) && |r.bytes| == 8 <= capacity
    ensures r.Refused? ==> r.status != Ok
  {
    if !ValidChannelConfig(c) then Refused(InvalidConfig)
    else if capacity < 8 then Refused(BufferTooSmall)
    else if c.address + ReadQuantity(c) > 0x10000 then Refused(InvalidConfig)
    else Frame(WithCrc([c.slaveId, FunctionCode(c.dataType)] + Be16(c.address) + Be16(ReadQuantity(c))))
  }

  // The request that writes one value of a channel, or the reason there is none.
  function WriteRequest(fpu: Fpu, c: ChannelConfig, index: byte, v: Scalar, capacity: nat): (r: Built)
    ensures r.Frame? ==> ValidChannelConfig(c) && index < c.quantity && WritableType(c.dataType) && 8 <= |r.bytes| <= capacity
    ensures r.Refused? ==> r.status != Ok
  {
    if !ValidChannelConfig(c) || index >= c.quantity || !WritableType(c.dataType) then Refused(InvalidConfig)
    else if c.dataType == 0x00 then
      if !v.Boolean? || capacity < 8 || c.address + index > 0xffff then Refused(InvalidConfig)
      else Frame(WithCrc([c.slaveId, WRITE_COIL] + Be16(c.address + index) + [if v.truth then 0xff else 0x00, 0x00]))
    else
      var words := RegistersPerValue(c.dataType);
      var address := c.address + index * words;
      var wire := WireValue(fpu, c, v);
      if address + words > 0x10000 || wire.None? then Refused(InvalidConfig)
      else if words == 1 then
        if capacity < 8 then Refused(BufferTooSmall)
        else Frame(WithCrc([c.slaveId, WRITE_REGISTER] + Be16(address) + wire.value))
      else if capacity < 9 + |wire.value| then Refused(BufferTooSmall)
      else Frame(WithCrc([c.slaveId, WRITE_REGISTERS] + Be16(address) + [0x00, words, |wire.value|] + wire.value))
  }

  // What a builder leaves in the caller's buffer.
  ghost predicate Delivers(built: Built, before: seq<byte>, after: seq<byte>, status: RtuStatus, written: nat) {
    match built
    case Refused(why) => status == why && written == 0 && after == before
    case Frame(bytes) =>
      status == Ok && written == |bytes| && |after| == |before| >= |bytes| &&
      after == bytes + before[|bytes|..]
  }

  method AppendCrc(frame: array<byte>, payloadLength: nat)
    requires payloadLength + 2 <= frame.Length
    modifies frame
    ensures frame[..] == WithCrc(old(frame[..payloadLength])) + old(frame[payloadLength + 2..])
  {
    var crc := Crc16(frame, payloadLength);
    Crc16Range(frame[..payloadLength]);
    assert ToLe(crc, 2) == [crc % 256] + ToLe(crc / 256, 1);
    assert ToLe(crc / 256, 1) == [crc / 256 % 256] + ToLe(crc / 256 / 256, 0);
    frame[payloadLength] := crc % 256;
    frame[payloadLength + 1] := crc / 256;
  }

  method BuildReadRequest(c: ChannelConfig, output: array<byte>) returns (status: RtuStatus, written: nat)
    modifies output
    ensures Delivers(ReadRequest(c, output.Length), old(output[..]), output[..], status, written)
  {
    if !ValidChannelConfig(c) { return InvalidConfig, 0; }
    if output.Length < 8 { return BufferTooSmall, 0; }
    var function_ := FunctionCode(c.dataType);
    var quantity := ReadQuantity(c);
    if function_ == 0 || quantity == 0 { assert false; }
    if c.address + quantity > 0x10000 { return InvalidConfig, 0; }
    output[0] := c.slaveId;
    output[1] := function_;
    output[2] := c.address / 256;
    output[3] := c.address % 256;
    output[4] := quantity / 256;
    output[5] := quantity % 256;
    assert output[..6] == [c.slaveId, function_] + Be16(c.address) + Be16(quantity);
    AppendCrc(output, 6);
    return Ok, 8;
  }

  // The eight bytes of a single-coil or single-register write.
  method PutSingleWrite(output: array<byte>, slaveId: byte, function_: byte, address: u16, high: byte, low: byte)
    requires output.Length >= 8
    modifies output
    ensures output[..] == WithCrc([slaveId, function_] + Be16(address) + [high, low]) + old(output[8..])
  {
    output[0] := slaveId;
    output[1] := function_;
    output[2] := address / 256;
    output[3] := address % 256;
    output[4] := high;
    output[5] := low;
    assert output[..6] == [slaveId, function_] + Be16(address) + [high, low];
    AppendCrc(output, 6);
  }

  method PutMultipleWrite(output: array<byte>, slaveId: byte, address: u16, words: byte, wire: seq<byte>)
    requires |wire| <= 8 && output.Length >= 9 + |wire|
    modifies output
    ensures output[..] == WithCrc([slaveId, WRITE_REGISTERS] + Be16(address) + [0x00, words, |wire|] + wire)
                          + old(output[9 + |wire|..])
  {
    output[0] := slaveId;
    output[1] := WRITE_REGISTERS;
    output[2] := address / 256;
    output[3] := address % 256;
    output[4] := 0x00;
    output[5] := words;
    output[6] := |wire|;
    forall i | 0 <= i < |wire| { output[7 + i] := wire[i]; }
    assert output[..7 + |wire|] == [slaveId, WRITE_REGISTERS] + Be16(address) + [0x00, words, |wire|] + wire;
    assert output[9 + |wire|..] == old(output[9 + |wire|..]);
    AppendCrc(output, 7 + |wire|);
  }

  method BuildWriteRequest(fpu: Fpu, c: ChannelConfig, index: byte, value: Scalar, output: array<byte>)
    returns (status: RtuStatus, written: nat)
    modifies output
    ensures Delivers(WriteRequest(fpu, c, index, value, output.Length), old(output[..]), output[..], status, written)
  {
    hide WithCrc, WireValue, Be16;
    if !ValidChannelConfig(c) || index >= c.quantity || !WritableType(c.dataType) { return InvalidConfig, 0; }
    if c.dataType == 0x00 {
      if !value.Boolean? || output.Length < 8 { return InvalidConfig, 0; }
      var address := c.address as int + index;
      if address > 0xffff { return InvalidConfig, 0; }
      PutSingleWrite(output, c.slaveId, WRITE_COIL, address, if value.truth then 0xff else 0x00, 0x00);
      return Ok, 8;
    }
    var words := RegistersPerValue(c.dataType);
    if words == 0 { assert false; }
    var address := c.address as int + index as int * words;
    if address + words > 0x10000 { return InvalidConfig, 0; }
    var wire := new byte[8];
    var ok, wireLength := EncodeRegisterValue(fpu, c, value, wire);
    if !ok { return InvalidConfig, 0; }
    if words == 1 {
      if output.Length < 8 || wireLength != 2 { return BufferTooSmall, 0; }
      assert wire[..2] == [wire[0], wire[1]];
      PutSingleWrite(output, c.slaveId, WRITE_REGISTER, address, wire[0], wire[1]);
      return Ok, 8;
    }
    var frameLength := 9 + wireLength;
    if output.Length < frameLength { return BufferTooSmall, 0; }
    PutMultipleWrite(output, c.slaveId, address, words, wire[..wireLength]);
    return Ok, frameLength;
  }

  // ---- responses ----

  datatype ReadOutcome = Values(values: seq<Scalar>) | Fault(status: RtuStatus) | Exception(code: byte)

  // Data bytes of a well-formed response to a channel's read request.
  function DataBytes(c: ChannelConfig): nat {
    if IsBooleanType(c.dataType) then (ReadQuantity(c) + 7) / 8 else 2 * ReadQuantity(c)
  }

  function ValueAt(fpu: Fpu, c: ChannelConfig, data: seq<byte>, k: nat): Scalar
    requires ValidChannelConfig(c) && |data| == DataBytes(c) && k < c.quantity
  {
    if IsBooleanType(c.dataType) then Boolean(data[0] / Pow2(k) % 2 == 1)
    else
      var n := BytesPerValue(c.dataType);
      RegisterValue(fpu, c, data[k * n..k * n + n])
  }

  function ReadResponse(fpu: Fpu, c: ChannelConfig, frame: seq<byte>): ReadOutcome {
    var f := FunctionCode(c.dataType);
    if !ValidChannelConfig(c) then Fault(InvalidConfig)
    else if |frame| < 5 then Fault(Truncated)
    else if !CrcOk(frame) then Fault(CrcMismatch)
    else if frame[0] != c.slaveId then Fault(SlaveMismatch)
    else if frame[1] == f + 0x80 then (if |frame| != 5 then Fault(LengthMismatch) else Exception(frame[2]))
    else if frame[1] != f then Fault(FunctionMismatch)
    else if frame[2] != DataBytes(c) || |frame| != DataBytes(c) + 5 then Fault(LengthMismatch)
    else
      var data := frame[3..3 + DataBytes(c)];
      Values(seq(c.quantity, k requires 0 <= k < c.quantity => ValueAt(fpu, c, data, k)))
  }

  // An accepted response is a complete reading of the channel.
  lemma AcceptedResponseIsReading(fpu: Fpu, c: ChannelConfig, frame: seq<byte>)
    requires ReadResponse(fpu, c, frame).Values?
    ensures ValidChannelConfig(c) && ReadingOf(c, ReadResponse(fpu, c, frame).values)
  {
  }

  // Damage to at most two neighbouring bytes of a frame whose checksum holds never gets further
  // than the checksum test.
  lemma DamagedResponseRejected(fpu: Fpu, c: ChannelConfig, frame: seq<byte>, damaged: seq<byte>, at: nat, size: nat)
    requires ValidChannelConfig(c) && |frame| >= 5 && CrcOk(frame)
    requires DifferOnlyIn(frame, damaged, at, size) && size <= 2 && frame != damaged
    ensures ReadResponse(fpu, c, damaged) == Fault(CrcMismatch)
  {
    BurstBreaksCrc(frame, damaged, at, size);
  }

  // The outcome of a decoder, as its status, count and exception code.
  ghost predicate Reports(outcome: ReadOutcome, before: seq<Scalar>, after: seq<Scalar>,
                          status: RtuStatus, count: byte, code: byte)
    requires |before| == |after| == 2
  {
    match outcome
    case Values(vs) => status == Ok && |vs| == count <= 2 && code == 0 && after == vs + before[count..]
    case Fault(why) => status == why && count == 0 && code == 0 && after == before
    case Exception(e) => status == ExceptionResponse && count == 0 && code == e && after == before
  }

  method ChecksumHolds(frame: seq<byte>) returns (ok: bool)
    requires |frame| >= 2
    ensures ok == CrcOk(frame)
  {
    var body := new byte[|frame|](i requires 0 <= i < |frame| => frame[i]);
    assert body[..|frame| - 2] == frame[..|frame| - 2];
    var expectedCrc := Crc16(body, |frame| - 2);
    return expectedCrc == Le16(frame[|frame| - 2], frame[|frame| - 1]);
  }

  // The loop over the value positions of a response whose length has been checked.
  method DecodeValues(fpu: Fpu, c: ChannelConfig, data: seq<byte>, values: array<Scalar>)
    requires values.Length == 2 && ValidChannelConfig(c) && |data| == DataBytes(c)
    modifies values
    ensures forall k :: 0 <= k < c.quantity ==> values[k] == ValueAt(fpu, c, data, k)
    ensures values[c.quantity..] == old(values[c.quantity..])
  {
    hide RegisterValue;
    for index := 0 to c.quantity
      invariant forall k :: 0 <= k < index ==> values[k] == ValueAt(fpu, c, data, k)
      invariant forall k :: index <= k < 2 ==> values[k] == old(values[k])
    {
      if IsBooleanType(c.dataType) {
        assert Pow2(0) == 1 && Pow2(1) == 2;
        values[index] := Boolean(data[index / 8] / (if index % 8 == 0 then 1 else 2) % 2 != 0);
      } else {
        var n := RegistersPerValue(c.dataType) as int * 2;
        var _, value := DecodeRegisterValue(fpu, c, data[index * n..index * n + n]);
        values[index] := value;
      }
    }
  }

  method DecodeReadResponse(fpu: Fpu, c: ChannelConfig, frame: seq<byte>, values: array<Scalar>)
    returns (status: RtuStatus, valueCount: byte, exceptionCode: byte)
    requires values.Length == 2
    modifies values
    ensures Reports(ReadResponse(fpu, c, frame), old(values[..]), values[..], status, valueCount, exceptionCode)
  {
    hide CrcOk, ValueAt;
    if !ValidChannelConfig(c) { return InvalidConfig, 0, 0; }
    if |frame| < 5 { return Truncated, 0, 0; }
    var checksum := ChecksumHolds(frame);
    if !checksum { return CrcMismatch, 0, 0; }
    if frame[0] != c.slaveId { return SlaveMismatch, 0, 0; }

    var expectedFunction := FunctionCode(c.dataType);
    if frame[1] == expectedFunction + 0x80 {
      if |frame| != 5 { return LengthMismatch, 0, 0; }
      return ExceptionResponse, 0, frame[2];
    }
    if frame[1] != expectedFunction { return FunctionMismatch, 0, 0; }

    var quantity := ReadQuantity(c);
    var expectedDataBytes := if IsBooleanType(c.dataType) then (quantity + 7) / 8 else quantity * 2;
    if frame[2] != expectedDataBytes || |frame| != expectedDataBytes + 5 { return LengthMismatch, 0, 0; }

    DecodeValues(fpu, c, frame[3..3 + expectedDataBytes], values);
    assert values[..c.quantity] == ReadResponse(fpu, c, frame).values;
    assert values[..] == values[..c.quantity] + values[c.quantity..];
    return Ok, c.quantity, 0;
  }

  // The verdict on the response to a write request, with the exception code it carries.
  function WriteResponse(c: ChannelConfig, index: byte, request: seq<byte>, response: seq<byte>): (RtuStatus, byte) {
    if !ValidChannelConfig(c) || index >= c.quantity || !WritableType(c.dataType) then (InvalidConfig, 0)
    else if |response| < 5 then (Truncated, 0)
    else if !CrcOk(response) then (CrcMismatch, 0)
    else if response[0] != c.slaveId then (SlaveMismatch, 0)
    else
      var f: byte := if |request| >= 2 then request[1] else 0;
      if response[1] == (if f < 0x80 then f + 0x80 else f) then
        (if |response| != 5 then (LengthMismatch, 0) else (ExceptionResponse, response[2]))
      else if response[1] != f then (FunctionMismatch, 0)
      else if f == WRITE_COIL || f == WRITE_REGISTER then
        (if |request| == 8 && |response| == 8 && request[..6] == response[..6] then (Ok, 0) else (LengthMismatch, 0))
      else if f == WRITE_REGISTERS then
        (if |request| >= 11 && |response| == 8 && request[..6] == response[..6] then (Ok, 0) else (LengthMismatch, 0))
      else (FunctionMismatch, 0)
  }
}
