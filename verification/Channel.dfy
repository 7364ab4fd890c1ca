// Channel descriptions: the 42 wire types (identified by their wire byte), their uplink types
// and the scalars that travel between the fieldbus and the radio.
module Channel {
  import opened Words

  const MAX_NAME_LENGTH: int := 16

  datatype ChannelConfig = ChannelConfig(
    slot: byte, slaveId: byte, address: u16, dataType: byte, quantity: byte, signedValue: bool, name: seq<byte>)

  // A decoded value. Floating-point values are the bits of a double.
  datatype Scalar = Boolean(truth: bool) | Signed(i: i64) | Unsigned(u: u64) | Floating(bits: u64)

  // The processor's conversions between float and double, on bit patterns.
  datatype Fpu = Fpu(narrow: u64 -> u32, widen: u32 -> u64)

  predicate ValidWireDataType(raw: byte) {
    raw <= 0x29
  }

  predicate ValidChannelConfig(c: ChannelConfig) {
    c.slot < 32 && 1 <= c.slaveId <= 247 && 1 <= c.quantity <= 2 && ValidWireDataType(c.dataType)
  }

  predicate IsBooleanType(raw: byte) {
    raw == 0x00 || raw == 0x01
  }

  predicate IsFloatingPointType(raw: byte) {
    0x0a <= raw <= 0x0d || 0x16 <= raw <= 0x19 || 0x1a <= raw <= 0x1d || 0x22 <= raw <= 0x25
  }

  function UplinkDataType(raw: byte): byte {
    if raw == 0x00 then 0x00
    else if raw == 0x01 then 0x01
    else if 0x02 <= raw <= 0x03 then 0x02
    else if 0x04 <= raw <= 0x07 then 0x06
    else if raw == 0x08 then 0x08
    else if raw == 0x09 then 0x09
    else if 0x0a <= raw <= 0x0d then 0x07
    else if 0x0e <= raw <= 0x0f then 0x03
    else if 0x10 <= raw <= 0x13 then 0x04
    else if raw == 0x14 then 0x0a
    else if raw == 0x15 then 0x0b
    else if 0x16 <= raw <= 0x19 then 0x05
    else if 0x1a <= raw <= 0x1d then 0x0f
    else if 0x1e <= raw <= 0x21 then 0x0e
    else if 0x22 <= raw <= 0x25 then 0x0d
    else 0x0c
  }

  function UplinkValueWidth(uplink: byte): (width: nat)
    ensures width <= 8
  {
    if uplink == 0x00 || uplink == 0x01 then 1
    else if uplink == 0x02 || uplink == 0x03 then 2
    else if 0x04 <= uplink <= 0x0b then 4
    else if 0x0c <= uplink <= 0x0f then 8
    else 0
  }

  predicate UplinkSigned(c: ChannelConfig) {
    !IsBooleanType(c.dataType) && (IsFloatingPointType(c.dataType) || c.signedValue)
  }

  // The scalar kind a channel's values carry.
  predicate KindMatches(c: ChannelConfig, v: Scalar) {
    if IsBooleanType(c.dataType) then v.Boolean?
    else if IsFloatingPointType(c.dataType) then v.Floating?
    else if c.signedValue then v.Signed?
    else v.Unsigned?
  }

  // A complete reading of a channel: one value per register position, each of the channel's kind.
  predicate ReadingOf(c: ChannelConfig, values: seq<Scalar>) {
    |values| == c.quantity && forall k :: 0 <= k < |values| ==> KindMatches(c, values[k])
  }

  predicate SameButName(a: ChannelConfig, b: ChannelConfig) {
    a.(name := b.name) == b
  }
}
