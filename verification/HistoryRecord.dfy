// Historical records: the 25 bytes that keep one poll result, and the periodic snapshot of all
// channels into the ring.
module HistoryRecord {
  import opened Words
  import opened Channel
  import opened Uplink
  import opened HistoryRing
  import opened HistoryImage

  // The two control bytes: sign, wire type, success and quantity share sixteen bits.
  function Control(c: ChannelConfig, success: bool): u16
    requires ValidChannelConfig(c)
  {
    (if UplinkSigned(c) then 0x8000 else 0) + c.dataType as int * 0x200 + (if success then 0x100 else 0) + c.quantity as int * 0x40
  }

  // The 16 value bytes: 8 for each position, unused ones zero.
  function ValueField(fpu: Fpu, c: ChannelConfig, values: seq<Scalar>, index: nat): (r: Option<seq<byte>>)
    requires index < |values|
    ensures r.Some? ==> |r.value| == 8
  {
    match ScalarBytes(fpu, c, values[index])
    case None => None
    case Some(bytes) => if |bytes| > 8 then None else Some(bytes + Zeros(8 - |bytes|))
  }

  function Fields(fpu: Fpu, c: ChannelConfig, values: seq<Scalar>, n: nat): (r: Option<seq<byte>>)
    requires n <= |values|
    ensures r.Some? ==> |r.value| == 8 * n
  {
    if n == 0 then Some([])
    else
      var earlier, last := Fields(fpu, c, values, n - 1), ValueField(fpu, c, values, n - 1);
      if earlier.None? || last.None? then None else Some(earlier.value + last.value)
  }

  function ValueFields(fpu: Fpu, c: ChannelConfig, values: seq<Scalar>, success: bool): (r: Option<seq<byte>>)
    requires ValidChannelConfig(c) && |values| == 2
    ensures r.Some? ==> |r.value| == 16
  {
    var fields := Fields(fpu, c, values, if success then c.quantity else 0);
    if fields.None? then None else Some(fields.value + Zeros(16 - |fields.value|))
  }

  // The record of a poll result, unless it does not encode.
  function RecordOf(fpu: Fpu, unix: u32, c: ChannelConfig, success: bool, values: seq<Scalar>, count: byte): (r: Option<Record>)
    requires |values| == 2
  {
    if !ValidChannelConfig(c) || count != (if success then c.quantity else 0) then None
    else
      var fields := ValueFields(fpu, c, values, success);
      if fields.None? then None
      else Some([0x21, 0xce] + ToLe(unix, 4) + [c.slot, Control(c, success) % 256, Control(c, success) / 256] + fields.value)
  }

  // What a record says to a reader.
  datatype Entry = Entry(timestamp: u32, slot: byte, signed: bool, dataType: byte, success: bool, quantity: byte, values: seq<Scalar>)

  function FieldOf(fpu: Fpu, dataType: byte, signed: bool, field: seq<byte>): Scalar
    requires |field| == 8 && ValidWireDataType(dataType)
  {
    var uplink := UplinkDataType(dataType);
    FieldValue(fpu, uplink, signed, field[..UplinkValueWidth(uplink)])
  }

  function ReadValues(fpu: Fpu, control: u16, fields: seq<byte>): seq<Scalar>
    requires |fields| == 16
  {
    var signed, dataType, success, quantity := control >= 0x8000, control / 0x200 % 0x40, control / 0x100 % 2 == 1, control / 0x40 % 4;
    if !success || !ValidWireDataType(dataType) || quantity == 0 then []
    else if quantity == 1 then [FieldOf(fpu, dataType, signed, fields[..8])]
    else [FieldOf(fpu, dataType, signed, fields[..8]), FieldOf(fpu, dataType, signed, fields[8..])]
  }

  function ReadRecord(fpu: Fpu, r: Record): Entry {
    var control := Le16(r[7], r[8]);
    Entry(Timestamp(r), r[6], control >= 0x8000, control / 0x200 % 0x40, control / 0x100 % 2 == 1, control / 0x40 % 4,
          ReadValues(fpu, control, r[9..]))
  }

  lemma ControlReadsBack(c: ChannelConfig, success: bool)
    requires ValidChannelConfig(c)
    ensures var control := Control(c, success);
            (control >= 0x8000 <==> UplinkSigned(c)) && control / 0x200 % 0x40 == c.dataType &&
            (control / 0x100 % 2 == 1 <==> success) && control / 0x40 % 4 == c.quantity
  {
    hide UplinkSigned;
    ControlDigits(if UplinkSigned(c) then 1 else 0, c.dataType, if success then 1 else 0, c.quantity);
  }

  lemma ControlDigits(sign: int, t: int, ok: int, q: int)
    requires 0 <= sign <= 1 && 0 <= t < 0x40 && 0 <= ok <= 1 && 0 <= q < 4
    ensures var control := 0x8000 * sign + 0x200 * t + 0x100 * ok + 0x40 * q;
            control / 0x200 == 0x40 * sign + t && control / 0x100 == 2 * (0x40 * sign + t) + ok &&
            control / 0x40 == 4 * (2 * (0x40 * sign + t) + ok) + q
  {
    var high := 0x40 * sign + t;
    var control := 0x8000 * sign + 0x200 * t + 0x100 * ok + 0x40 * q;
    assert control == 0x200 * high + (0x100 * ok + 0x40 * q);
    assert control == 0x100 * (2 * high + ok) + 0x40 * q;
    assert control == 0x40 * (4 * (2 * high + ok) + q);
  }

  lemma FieldReadsBack(fpu: Fpu, c: ChannelConfig, values: seq<Scalar>, index: nat)
    requires ValidChannelConfig(c) && index < |values| && FitsField(c, values[index])
    ensures ValueField(fpu, c, values, index).Some?
    ensures FieldOf(fpu, c.dataType, UplinkSigned(c), ValueField(fpu, c, values, index).value) == Carried(fpu, c, values[index])
  {
    FieldRoundTrip(fpu, c, values[index]);
    var bytes := ScalarBytes(fpu, c, values[index]).value;
    assert (bytes + Zeros(8 - |bytes|))[..|bytes|] == bytes;
  }

  lemma HeadReadsBack(unix: u32, slot: byte, low: byte, high: byte, fields: seq<byte>)
    requires |fields| == 16
    ensures var r := [0x21, 0xce] + ToLe(unix, 4) + [slot, low, high] + fields;
            |r| == 25 && Stamped(r) && Timestamp(r) == unix && r[6] == slot && r[7] == low && r[8] == high && r[9..] == fields
  {
    hide ToLe, FromLe;
    var r := [0x21, 0xce] + ToLe(unix, 4) + [slot, low, high] + fields;
    Pow256Values();
    FromLeToLe(unix, 4);
    FromLeOf4(ToLe(unix, 4));
    assert r[2..6] == ToLe(unix, 4);
    assert r[2] == r[2..6][0] && r[3] == r[2..6][1] && r[4] == r[2..6][2] && r[5] == r[2..6][3];
  }

  lemma FieldsOf(fpu: Fpu, c: ChannelConfig, values: seq<Scalar>, n: nat)
    requires |values| == 2 && (n == 1 || n == 2)
    requires forall k :: 0 <= k < n ==> ValueField(fpu, c, values, k).Some?
    ensures var first := ValueField(fpu, c, values, 0).value;
            Fields(fpu, c, values, n) == Some(if n == 1 then first else first + ValueField(fpu, c, values, 1).value)
  {
    hide ValueField;
    assert Fields(fpu, c, values, 0) == Some([]);
    var first := ValueField(fpu, c, values, 0).value;
    assert [] + first == first;
    assert Fields(fpu, c, values, 1) == Some(first);
  }

  lemma ValuesReadBack(fpu: Fpu, c: ChannelConfig, success: bool, values: seq<Scalar>)
    requires ValidChannelConfig(c) && |values| == 2
    requires success ==> forall k :: 0 <= k < c.quantity ==> FitsField(c, values[k])
    ensures ValueFields(fpu, c, values, success).Some?
    ensures ReadValues(fpu, Control(c, success), ValueFields(fpu, c, values, success).value)
         == if success then CarriedAll(fpu, c, values)[..c.quantity] else []
  {
    hide Control, ValueField, FieldOf, FitsField, Carried;
    ControlReadsBack(c, success);
    if success {
      FieldReadsBack(fpu, c, values, 0);
      if c.quantity > 1 { FieldReadsBack(fpu, c, values, 1); }
      FieldsOf(fpu, c, values, c.quantity);
      var first, fields := ValueField(fpu, c, values, 0).value, ValueFields(fpu, c, values, success).value;
      assert fields[..8] == first;
      if c.quantity == 2 { assert fields[8..] == ValueField(fpu, c, values, 1).value; }
      var carried := CarriedAll(fpu, c, values);
      assert carried[..c.quantity] == if c.quantity == 1 then [carried[0]] else [carried[0], carried[1]];
    }
  }

  // Main result: a record of values that fit their fields reads back as the poll it was made from,
  // with what the fields carry of the values.
  lemma RecordReadsBack(fpu: Fpu, unix: u32, c: ChannelConfig, success: bool, values: seq<Scalar>)
    requires ValidChannelConfig(c) && |values| == 2
    requires success ==> forall k :: 0 <= k < c.quantity ==> FitsField(c, values[k])
    ensures var r := RecordOf(fpu, unix, c, success, values, if success then c.quantity else 0);
            r.Some? && Stamped(r.value) &&
            ReadRecord(fpu, r.value)
            == Entry(unix, c.slot, UplinkSigned(c), c.dataType, success, c.quantity,
                     if success then CarriedAll(fpu, c, values)[..c.quantity] else [])
  {
    hide Control, ValueFields, ReadValues, FitsField, ToLe, Timestamp, Stamped, UplinkSigned;
    ControlReadsBack(c, success);
    ValuesReadBack(fpu, c, success, values);
    var control := Control(c, success);
    assert Le16(control % 256, control / 256) == control;
    HeadReadsBack(unix, c.slot, control % 256, control / 256, ValueFields(fpu, c, values, success).value);
  }

  // There is a record exactly for a poll result of a valid channel with the count its outcome calls
  // for, and values of the channel's kind.
  lemma RecordsExactlyWhen(fpu: Fpu, unix: u32, c: ChannelConfig, success: bool, values: seq<Scalar>, count: byte)
    requires |values| == 2
    ensures RecordOf(fpu, unix, c, success, values, count).Some? <==>
              ValidChannelConfig(c) && count == (if success then c.quantity else 0) &&
              (success ==> forall k :: 0 <= k < c.quantity ==> KindMatches(c, values[k]))
  {
    hide ToLe, Control, KindMatches;
    if ValidChannelConfig(c) {
      assert Fields(fpu, c, values, 0) == Some([]);
      assert Fields(fpu, c, values, 1).Some? <==> KindMatches(c, values[0]);
      assert Fields(fpu, c, values, 2).Some? <==> KindMatches(c, values[0]) && KindMatches(c, values[1]);
    }
  }

  lemma RecordIsStamped(fpu: Fpu, unix: u32, c: ChannelConfig, success: bool, values: seq<Scalar>, count: byte)
    requires |values| == 2 && RecordOf(fpu, unix, c, success, values, count).Some?
    ensures Stamped(RecordOf(fpu, unix, c, success, values, count).value)
    ensures Timestamp(RecordOf(fpu, unix, c, success, values, count).value) == unix
  {
    hide ToLe, ValueFields, Timestamp, Control;
    HeadReadsBack(unix, c.slot, Control(c, success) % 256, Control(c, success) / 256, ValueFields(fpu, c, values, success).value);
  }

  method PutHead(unix: u32, c: ChannelConfig, success: bool, output: array<byte>)
    requires ValidChannelConfig(c) && output.Length >= RECORD_LENGTH
    modifies output
    ensures output[..RECORD_LENGTH]
         == [0x21, 0xce] + ToLe(unix, 4) + [c.slot, Control(c, success) % 256, Control(c, success) / 256] + Zeros(16)
    ensures output[RECORD_LENGTH..] == old(output[RECORD_LENGTH..])
  {
    hide ToLe, Control;
    forall i | 0 <= i < RECORD_LENGTH { output[i] := 0; }
    output[0], output[1] := 0x21, 0xce;
    ghost var tail := Zeros(19) + old(output[RECORD_LENGTH..]);
    assert output[6..] == tail;
    WriteLe(unix, output, 2, 4);
    assert output[..6] == [0x21, 0xce] + ToLe(unix, 4) && output[6..] == tail;
    output[6] := c.slot;
    var control := Control(c, success);
    output[7] := control % 256;
    output[8] := control / 256;
    assert output[9..RECORD_LENGTH] == Zeros(16);
    assert output[..RECORD_LENGTH] == output[..6] + output[6..9] + output[9..RECORD_LENGTH];
  }

  method PutValue(fpu: Fpu, c: ChannelConfig, values: seq<Scalar>, index: nat, output: array<byte>) returns (status: EncodeStatus)
    requires index < |values| && index <= 1 && output.Length >= RECORD_LENGTH
    requires output[9 + 8 * index..RECORD_LENGTH] == Zeros(16 - 8 * index)
    modifies output
    ensures match ValueField(fpu, c, values, index)
            case None => status == Invalid
            case Some(field) =>
              status == Done && output[..RECORD_LENGTH] == old(output[..9 + 8 * index]) + field + Zeros(8 - 8 * index)
    ensures output[RECORD_LENGTH..] == old(output[RECORD_LENGTH..])
  {
    assert !ValidChannelConfig(c) ==> ScalarBytes(fpu, c, values[index]) == None;
    hide ScalarBytes;
    var encoded := new byte[8](_ => 0);
    var scalarStatus, encodedLength := EncodeScalarBytes(fpu, c, values[index], encoded);
    if scalarStatus != Done { return Invalid; }
    var at := 9 + 8 * index;
    ghost var before := output[..RECORD_LENGTH];
    forall i | 0 <= i < encodedLength { output[at + i] := encoded[i]; }
    ZerosBehind(before, output[..RECORD_LENGTH], at, encoded[..encodedLength]);
    return Done;
  }

  // Bytes written over the start of a zero field leave the rest of the fields zero.
  lemma ZerosBehind(before: seq<byte>, after: seq<byte>, at: nat, bytes: seq<byte>)
    requires |before| == |after| && at + 8 <= |after| && |bytes| <= 8 && before[at..] == Zeros(|before| - at)
    requires forall j :: 0 <= j < |after| ==> after[j] == if at <= j < at + |bytes| then bytes[j - at] else before[j]
    ensures after == before[..at] + (bytes + Zeros(8 - |bytes|)) + Zeros(|after| - at - 8)
  {
    assert before == before[..at] + before[at..];
  }

  lemma MissingFieldFails(fpu: Fpu, c: ChannelConfig, values: seq<Scalar>, index: nat, n: nat)
    requires index < n <= |values| && ValueField(fpu, c, values, index) == None
    ensures Fields(fpu, c, values, n) == None
  {
  }

  method EncodeModbusRecord(fpu: Fpu, unix: u32, c: ChannelConfig, success: bool, values: seq<Scalar>, valueCount: byte, output: array<byte>)
    returns (status: EncodeStatus, written: nat)
    requires |values| == 2
    modifies output
    ensures var record := RecordOf(fpu, unix, c, success, values, valueCount);
            if ValidChannelConfig(c) && output.Length < RECORD_LENGTH then status == NoRoom && written == 0
            else if record.None? then status == Invalid && written == 0
            else status == Done && written == RECORD_LENGTH && output[..RECORD_LENGTH] == record.value
    ensures output.Length >= RECORD_LENGTH ==> output[RECORD_LENGTH..] == old(output[RECORD_LENGTH..])
  {
    hide ToLe, ValueField, Control;
    if !ValidChannelConfig(c) || output.Length < RECORD_LENGTH {
      return if !ValidChannelConfig(c) then Invalid else NoRoom, 0;
    }
    if success {
      if valueCount != c.quantity || valueCount == 0 || valueCount > 2 { return Invalid, 0; }
    } else if valueCount != 0 {
      return Invalid, 0;
    }
    PutHead(unix, c, success, output);
    ghost var head := [0x21, 0xce] + ToLe(unix, 4) + [c.slot, Control(c, success) % 256, Control(c, success) / 256];
    assert head + [] == head;
    if success {
      for index := 0 to valueCount
        invariant Fields(fpu, c, values, index).Some?
        invariant output[..RECORD_LENGTH] == head + Fields(fpu, c, values, index).value + Zeros(16 - 8 * index)
        invariant output[RECORD_LENGTH..] == old(output[RECORD_LENGTH..])
      {
        ghost var before := Fields(fpu, c, values, index).value;
        assert output[..9 + 8 * index] == output[..RECORD_LENGTH][..9 + 8 * index] == head + before;
        assert output[9 + 8 * index..RECORD_LENGTH] == output[..RECORD_LENGTH][9 + 8 * index..] == Zeros(16 - 8 * index);
        status := PutValue(fpu, c, values, index, output);
        if status != Done {
          MissingFieldFails(fpu, c, values, index, c.quantity);
          return Invalid, 0;
        }
        assert (head + before) + ValueField(fpu, c, values, index).value
            == head + (before + ValueField(fpu, c, values, index).value);
      }
    }
    assert output[..RECORD_LENGTH] == head + ValueFields(fpu, c, values, success).value;
    return Done, RECORD_LENGTH;
  }
}
