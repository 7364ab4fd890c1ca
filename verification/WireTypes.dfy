// The wire types by name: what the name of each of the 42 enumerators says about where a value
// lives, what it is and in which order its bytes stand on the wire. The codec's range tests and
// byte shuffles are proved to agree with the names.
module WireTypes {
  import opened Words
  import opened Channel
  import opened RtuCodec

  datatype Bank = Coils | DiscreteInputs | InputRegisters | HoldingRegisters
  datatype Format = Bit | Integer | Float | UpperHalf | LowerHalf

  // The bytes in wire order; A is the most significant one.
  datatype Letters = Unordered | AB | BA | ABCD | BADC | CDAB | DCBA | ABCDEFGH | GHEFCDAB | BADCFEHG | HGFEDCBA

  datatype WireType = WireType(bank: Bank, format: Format, letters: Letters)

  function Spelled(l: Letters): string {
    match l
    case Unordered => ""
    case AB => "AB"
    case BA => "BA"
    case ABCD => "ABCD"
    case BADC => "BADC"
    case CDAB => "CDAB"
    case DCBA => "DCBA"
    case ABCDEFGH => "ABCDEFGH"
    case GHEFCDAB => "GHEFCDAB"
    case BADCFEHG => "BADCFEHG"
    case HGFEDCBA => "HGFEDCBA"
  }

  function Width(t: WireType): nat {
    |Spelled(t.letters)|
  }

  function TypeOf(raw: byte): WireType
    requires ValidWireDataType(raw)
  {
    match raw
    case 0x00 => WireType(Coils, Bit, Unordered)
    case 0x01 => WireType(DiscreteInputs, Bit, Unordered)
    case 0x02 => WireType(InputRegisters, Integer, AB)
    case 0x03 => WireType(InputRegisters, Integer, BA)
    case 0x04 => WireType(InputRegisters, Integer, ABCD)
    case 0x05 => WireType(InputRegisters, Integer, BADC)
    case 0x06 => WireType(InputRegisters, Integer, CDAB)
    case 0x07 => WireType(InputRegisters, Integer, DCBA)
    case 0x08 => WireType(InputRegisters, UpperHalf, Unordered)
    case 0x09 => WireType(InputRegisters, LowerHalf, Unordered)
    case 0x0a => WireType(InputRegisters, Float, ABCD)
    case 0x0b => WireType(InputRegisters, Float, BADC)
    case 0x0c => WireType(InputRegisters, Float, CDAB)
    case 0x0d => WireType(InputRegisters, Float, DCBA)
    case 0x0e => WireType(HoldingRegisters, Integer, AB)
    case 0x0f => WireType(HoldingRegisters, Integer, BA)
    case 0x10 => WireType(HoldingRegisters, Integer, ABCD)
    case 0x11 => WireType(HoldingRegisters, Integer, BADC)
    case 0x12 => WireType(HoldingRegisters, Integer, CDAB)
    case 0x13 => WireType(HoldingRegisters, Integer, DCBA)
    case 0x14 => WireType(HoldingRegisters, UpperHalf, Unordered)
    case 0x15 => WireType(HoldingRegisters, LowerHalf, Unordered)
    case 0x16 => WireType(HoldingRegisters, Float, ABCD)
    case 0x17 => WireType(HoldingRegisters, Float, BADC)
    case 0x18 => WireType(HoldingRegisters, Float, CDAB)
    case 0x19 => WireType(HoldingRegisters, Float, DCBA)
    case 0x1a => WireType(InputRegisters, Float, ABCDEFGH)
    case 0x1b => WireType(InputRegisters, Float, GHEFCDAB)
    case 0x1c => WireType(InputRegisters, Float, BADCFEHG)
    case 0x1d => WireType(InputRegisters, Float, HGFEDCBA)
    case 0x1e => WireType(InputRegisters, Integer, ABCDEFGH)
    case 0x1f => WireType(InputRegisters, Integer, GHEFCDAB)
    case 0x20 => WireType(InputRegisters, Integer, BADCFEHG)
    case 0x21 => WireType(InputRegisters, Integer, HGFEDCBA)
    case 0x22 => WireType(HoldingRegisters, Float, ABCDEFGH)
    case 0x23 => WireType(HoldingRegisters, Float, GHEFCDAB)
    case 0x24 => WireType(HoldingRegisters, Float, BADCFEHG)
    case 0x25 => WireType(HoldingRegisters, Float, HGFEDCBA)
    case 0x26 => WireType(HoldingRegisters, Integer, ABCDEFGH)
    case 0x27 => WireType(HoldingRegisters, Integer, GHEFCDAB)
    case 0x28 => WireType(HoldingRegisters, Integer, BADCFEHG)
    case 0x29 => WireType(HoldingRegisters, Integer, HGFEDCBA)
  }

  // The Modbus function that reads a bank.
  function ReadFunction(bank: Bank): byte {
    match bank
    case Coils => 1
    case DiscreteInputs => 2
    case HoldingRegisters => 3
    case InputRegisters => 4
  }

  // Registers one value takes; a half is cut out of a 32-bit value.
  function Registers(t: WireType): (n: nat)
    ensures n <= 4
  {
    match t.format
    case Bit => 1
    case UpperHalf => 2
    case LowerHalf => 2
    case _ => Width(t) / 2
  }

  // The uplink type a value travels as.
  function UplinkOf(t: WireType): byte {
    var input := t.bank == InputRegisters;
    match t.format
    case Bit => if t.bank == Coils then 0x00 else 0x01
    case UpperHalf => if input then 0x08 else 0x0a
    case LowerHalf => if input then 0x09 else 0x0b
    case Float => if Width(t) == 4 then (if input then 0x07 else 0x05) else (if input then 0x0f else 0x0d)
    case Integer =>
      if Width(t) == 2 then (if input then 0x02 else 0x03)
      else if Width(t) == 4 then (if input then 0x06 else 0x04)
      else (if input then 0x0e else 0x0c)
  }

  // Every classification the codec makes of a wire type is what its name says: function code,
  // width, register count, kind, writability and uplink type.
  lemma CodecFollowsNames(raw: byte)
    requires ValidWireDataType(raw)
    ensures var t := TypeOf(raw);
            FunctionCode(raw) == ReadFunction(t.bank) && OrderedWidth(raw) == Width(t) &&
            RegistersPerValue(raw) == Registers(t) &&
            (IsBooleanType(raw) <==> t.format.Bit?) && (IsFloatingPointType(raw) <==> t.format.Float?) &&
            (WritableType(raw) <==> t.bank in {Coils, HoldingRegisters} && !t.format.UpperHalf? && !t.format.LowerHalf?) &&
            UplinkDataType(raw) == UplinkOf(t)
    ensures UplinkValueWidth(UplinkDataType(raw)) == if TypeOf(raw).format.Bit? then 1 else 2 * Registers(TypeOf(raw))
  {
  }

  // So are the kind of a channel's values and the sign bit of its uplink frames; a float is signed.
  lemma KindsFollowNames(c: ChannelConfig, v: Scalar)
    requires ValidWireDataType(c.dataType)
    ensures KindMatches(c, v) <==> match TypeOf(c.dataType).format
                                   case Bit => v.Boolean?
                                   case Float => v.Floating?
                                   case _ => if c.signedValue then v.Signed? else v.Unsigned?
    ensures UplinkSigned(c) <==> match TypeOf(c.dataType).format
                                 case Bit => false
                                 case Float => true
                                 case _ => c.signedValue
  {
    CodecFollowsNames(c.dataType);
    hide TypeOf;
  }

  // Position of a letter among the bytes, most significant first.
  function Rank(letter: char): int {
    letter as int - 'A' as int
  }

  // An order of bytes that undoes a spelling.
  predicate Undoes(order: seq<nat>, letters: string) {
    |order| == |letters| && forall p :: 0 <= p < |letters| ==> UndoesAt(order, letters, p)
  }

  predicate UndoesAt(order: seq<nat>, letters: string, p: nat)
    requires p < |letters| == |order|
  {
    0 <= Rank(letters[p]) < |order| && order[Rank(letters[p])] == p && order[p] == Rank(letters[p])
  }

  lemma Spellings2()
    ensures Undoes([0, 1], "AB") && Undoes([1, 0], "BA")
  {
    assert UndoesAt([0, 1], "AB", 0) && UndoesAt([0, 1], "AB", 1);
    assert UndoesAt([1, 0], "BA", 0) && UndoesAt([1, 0], "BA", 1);
  }

  lemma Spellings4()
    ensures Undoes([0, 1, 2, 3], "ABCD") && Undoes([1, 0, 3, 2], "BADC")
    ensures Undoes([2, 3, 0, 1], "CDAB") && Undoes([3, 2, 1, 0], "DCBA")
  {
    Undoes4([0, 1, 2, 3], "ABCD"); Undoes4([1, 0, 3, 2], "BADC");
    Undoes4([2, 3, 0, 1], "CDAB"); Undoes4([3, 2, 1, 0], "DCBA");
  }

  lemma Undoes4(order: seq<nat>, letters: string)
    requires |order| == |letters| == 4
    requires UndoesAt(order, letters, 0) && UndoesAt(order, letters, 1) && UndoesAt(order, letters, 2) && UndoesAt(order, letters, 3)
    ensures Undoes(order, letters)
  {
    hide UndoesAt;
  }

  lemma Spellings8()
    ensures Undoes([0, 1, 2, 3, 4, 5, 6, 7], "ABCDEFGH") && Undoes([6, 7, 4, 5, 2, 3, 0, 1], "GHEFCDAB")
    ensures Undoes([1, 0, 3, 2, 5, 4, 7, 6], "BADCFEHG") && Undoes([7, 6, 5, 4, 3, 2, 1, 0], "HGFEDCBA")
  {
    Undoes8([0, 1, 2, 3, 4, 5, 6, 7], "ABCDEFGH"); Undoes8([6, 7, 4, 5, 2, 3, 0, 1], "GHEFCDAB");
    Undoes8([1, 0, 3, 2, 5, 4, 7, 6], "BADCFEHG"); Undoes8([7, 6, 5, 4, 3, 2, 1, 0], "HGFEDCBA");
  }

  lemma Undoes8(order: seq<nat>, letters: string)
    requires |order| == |letters| == 8
    requires UndoesAt(order, letters, 0) && UndoesAt(order, letters, 1) && UndoesAt(order, letters, 2) && UndoesAt(order, letters, 3)
    requires UndoesAt(order, letters, 4) && UndoesAt(order, letters, 5) && UndoesAt(order, letters, 6) && UndoesAt(order, letters, 7)
    ensures Undoes(order, letters)
  {
    hide UndoesAt;
  }

  lemma OrdersFollowNames(raw: byte)
    requires ValidWireDataType(raw)
    ensures Undoes(ByteOrder(raw), Spelled(TypeOf(raw).letters))
  {
    hide Undoes;
    Spellings2(); Spellings4(); Spellings8();
    assert Undoes([], "") by { NothingToUndo(); }
  }

  lemma NothingToUndo()
    ensures Undoes([], "")
  {
  }

  // The byte at each place of the wire goes where its letter says, in both directions.
  lemma OrderedFollowsName(raw: byte, s: seq<byte>, p: nat)
    requires ValidWireDataType(raw) && |s| == OrderedWidth(raw) && p < |s|
    ensures var letters := Spelled(TypeOf(raw).letters);
            |letters| == |s| && 0 <= Rank(letters[p]) < |s| &&
            Ordered(raw, s)[Rank(letters[p])] == s[p] && Ordered(raw, s)[p] == s[Rank(letters[p])]
  {
    hide TypeOf, OrderFor, Spelled;
    OrdersFollowNames(raw);
    assert UndoesAt(ByteOrder(raw), Spelled(TypeOf(raw).letters), p);
  }

  // The bytes of a value put in the order of their letters.
  predicate Sorted(t: WireType, raw: seq<byte>, canonical: seq<byte>) {
    |raw| == |canonical| == Width(t) &&
    forall p :: 0 <= p < |raw| ==> var rank := Rank(Spelled(t.letters)[p]); 0 <= rank < |raw| && canonical[rank] == raw[p]
  }

  // An integer of n bytes as the channel's signedness wants it: the number itself, or the one
  // congruent to it in the signed range.
  predicate Represents(c: ChannelConfig, v: Scalar, number: nat, n: nat) {
    if c.signedValue
    then v.Signed? && -Pow256(n) <= 2 * v.i < Pow256(n) && (v.i == number || v.i == number - Pow256(n))
    else v.Unsigned? && v.u == number
  }

  lemma IntegerRepresents(c: ChannelConfig, number: nat, n: nat)
    requires 0 < n <= 8 && number < Pow256(n)
    ensures Represents(c, IntegerOf(c, number, n), number, n)
  {
  }

  lemma SortedIsOrdered(raw: byte, s: seq<byte>, canonical: seq<byte>)
    requires ValidWireDataType(raw) && |s| == OrderedWidth(raw) && Sorted(TypeOf(raw), s, canonical)
    ensures canonical == Ordered(raw, s)
  {
    var ordered, letters := Ordered(raw, s), Spelled(TypeOf(raw).letters);
    hide TypeOf, OrderFor, Ordered, Spelled;
    OrdersFollowNames(raw);
    forall k | 0 <= k < |s|
      ensures canonical[k] == ordered[k]
    {
      assert UndoesAt(ByteOrder(raw), letters, k);
      var p := ByteOrder(raw)[k];
      assert UndoesAt(ByteOrder(raw), letters, p);
      OrderedFollowsName(raw, s, p);
    }
  }

  lemma HalvesFollowNames(raw: byte)
    requires ValidWireDataType(raw)
    ensures TypeOf(raw).format.UpperHalf? <==> raw == 0x08 || raw == 0x14
    ensures TypeOf(raw).format.LowerHalf? <==> raw == 0x09 || raw == 0x15
  {
  }

  // Main result: a register value is the number its letters spell, most significant byte first,
  // read as its format and the channel's signedness say; a half is that half of the registers.
  lemma RegisterValueFollowsName(fpu: Fpu, c: ChannelConfig, raw: seq<byte>, canonical: seq<byte>)
    requires ValidWireDataType(c.dataType) && !IsBooleanType(c.dataType) && |raw| == BytesPerValue(c.dataType)
    requires TypeOf(c.dataType).format in {Integer, Float} ==> Sorted(TypeOf(c.dataType), raw, canonical)
    ensures var t, v := TypeOf(c.dataType), RegisterValue(fpu, c, raw);
            match t.format
            case UpperHalf => |raw| == 4 && Represents(c, v, raw[0] as int * 256 + raw[1], 2)
            case LowerHalf => |raw| == 4 && Represents(c, v, raw[2] as int * 256 + raw[3], 2)
            case Integer => Represents(c, v, FromBe(canonical), |raw|)
            case Float => v.Floating? && (if |raw| == 4 then FromBe(canonical) < TWO_32 && v.bits == fpu.widen(FromBe(canonical))
                                          else v.bits == FromBe(canonical))
            case Bit => false
  {
    CodecFollowsNames(c.dataType);
    HalvesFollowNames(c.dataType);
    Pow256Values();
    hide TypeOf, Sorted, Represents, Ordered, IntegerOf, Pow256, FromBe;
    if TypeOf(c.dataType).format in {Integer, Float} {
      SortedIsOrdered(c.dataType, raw, canonical);
      FromBeBound(canonical);
      if TypeOf(c.dataType).format.Integer? { IntegerRepresents(c, FromBe(canonical), |raw|); }
    } else {
      var half := if TypeOf(c.dataType).format.UpperHalf? then raw[..2] else raw[2..];
      FromBeOf2(half);
      FromBeBound(half);
      IntegerRepresents(c, FromBe(half), 2);
    }
  }
}
