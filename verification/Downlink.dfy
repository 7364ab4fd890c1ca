// The downlink command stream of FPort 85: one decoder per command, the parse loop over a
// payload, and the handler that applies nothing unless everything parses.
module Downlink {
  import opened Words
  import opened Channel
  import LocalTime
  import RuleCondition

  const SYSTEM: byte := 0xff
  const MODBUS: byte := 0xf9
  const HISTORY_QUERY: byte := 0xfd

  datatype SerialSettings = SerialSettings(baudRate: u32, dataBits: byte, stopBits: byte, parity: byte)
  datatype MasterSettings = MasterSettings(executionIntervalMs: u16, maxResponseTimeMs: u16, maxRetryTimes: byte, passThroughMode: byte, passThroughPort: byte)

  datatype Command =
    | Rejoin | Reboot | PeriodicReportEnquiry | LnsTimeSync
    | UtcTimezone(offsetMinutes: int)
    | DstSettings(dst: LocalTime.Dst)
    | DataStorage(storage: bool) | DataRetransmission(retransmission: bool)
    | RetransmissionInterval(retransmissionSeconds: u16) | RetrievabilityInterval(retrievabilitySeconds: u16)
    | HistoryPoint(at: u32) | HistoryRange(from: u32, to: u32) | HistoryStop
    | RuleStatus(mask: u16, operation: byte) | RuleEnquiry(enquired: byte)
    | RuleConfiguration(ruleId: byte, enabled: bool, slot: byte, frame: seq<byte>)
    | ReportInterval(seconds: u16)
    | ChannelUpsert(channel: ChannelConfig) | ChannelRemove(removed: byte) | ChannelName(named: byte, name: seq<byte>)
    | Rs485Config(serial: SerialSettings) | MasterConfig(master: MasterSettings) | Rs485Enquiry(kind: byte)

  datatype Decoded = Accepted(command: Command, consumed: nat) | Truncated | Unsupported | Invalid

  predicate Begins(p: seq<byte>, channel: byte, kind: byte) {
    |p| >= 2 && p[0] == channel && p[1] == kind
  }

  function DecodeBasicControl(p: seq<byte>): Decoded {
    if |p| < 3 then Truncated
    else if p[0] != SYSTEM then Unsupported
    else if p[2] != 0xff then Invalid
    else if p[1] == 0x04 then Accepted(Rejoin, 3)
    else if p[1] == 0x10 then Accepted(Reboot, 3)
    else Unsupported
  }

  function DecodePeriodicReportEnquiry(p: seq<byte>): Decoded {
    if |p| < 3 then Truncated
    else if !Begins(p, SYSTEM, 0x28) then Unsupported
    else if p[2] != 0xff then Invalid
    else Accepted(PeriodicReportEnquiry, 3)
  }

  function DecodeUtcTimezone(p: seq<byte>): Decoded {
    if |p| < 4 then Truncated
    else if !Begins(p, SYSTEM, 0xbd) then Unsupported
    else
      var raw := Le16(p[2], p[3]);
      var minutes := if raw >= 0x8000 then raw - 0x1_0000 else raw;
      if minutes < -720 || minutes > 840 then Invalid else Accepted(UtcTimezone(minutes), 4)
  }

  function DecodeLnsTimeSync(p: seq<byte>): Decoded {
    if |p| < 3 then Truncated
    else if !Begins(p, SYSTEM, 0x4a) then Unsupported
    else if p[2] != 0x00 then Invalid
    else Accepted(LnsTimeSync, 3)
  }

  function DecodeDstSettings(p: seq<byte>): Decoded {
    if |p| < 11 then Truncated
    else if !Begins(p, MODBUS, 0x72) then Unsupported
    else
      var start := LocalTime.Transition(p[3], p[4] / 16, p[4] % 16, Le16(p[5], p[6]));
      var end := LocalTime.Transition(p[7], p[8] / 16, p[8] % 16, Le16(p[9], p[10]));
      var dst := LocalTime.Dst(p[2] >= 0x80, p[2] % 0x80, start, end);
      if dst.biasMinutes > 120 then Invalid
      else if dst.enabled &&
              (dst.biasMinutes == 0 ||
               start.month < 1 || start.month > 12 || start.week < 1 || start.week > 5 ||
               start.weekday < 1 || start.weekday > 7 || start.minuteOfDay > 1439 ||
               end.month < 1 || end.month > 12 || end.week < 1 || end.week > 5 ||
               end.weekday < 1 || end.weekday > 7 || end.minuteOfDay > 1439) then Invalid
      else Accepted(DstSettings(dst), 11)
  }

  function DecodeHistoryToggle(p: seq<byte>, expected: byte): Decoded {
    if |p| < 3 then Truncated
    else if !Begins(p, SYSTEM, expected) then Unsupported
    else if expected != 0x68 && expected != 0x69 then Unsupported
    else if p[2] > 0x01 then Invalid
    else Accepted(if expected == 0x68 then DataStorage(p[2] == 0x01) else DataRetransmission(p[2] == 0x01), 3)
  }

  function DecodeRetransmissionInterval(p: seq<byte>): Decoded {
    if |p| < 4 then Truncated
    else if !Begins(p, MODBUS, 0x0d) then Unsupported
    else
      var seconds := Le16(p[2], p[3]);
      if seconds < 30 || seconds > 1200 then Invalid else Accepted(RetransmissionInterval(seconds), 4)
  }

  function DecodeRetrievabilityInterval(p: seq<byte>): Decoded {
    if |p| < 4 then Truncated
    else if !Begins(p, MODBUS, 0x0e) then Unsupported
    else
      var seconds := Le16(p[2], p[3]);
      if seconds < 30 || seconds > 1200 then Invalid else Accepted(RetrievabilityInterval(seconds), 4)
  }

  function DecodeHistoryQuery(p: seq<byte>): Decoded {
    if |p| < 3 then Truncated
    else if p[0] != HISTORY_QUERY then Unsupported
    else if p[1] == 0x6b then
      if |p| < 6 then Truncated else Accepted(HistoryPoint(Le32(p[2], p[3], p[4], p[5])), 6)
    else if p[1] == 0x6c then
      if |p| < 10 then Truncated
      else Accepted(HistoryRange(Le32(p[2], p[3], p[4], p[5]), Le32(p[6], p[7], p[8], p[9])), 10)
    else if p[1] == 0x6d then
      if p[2] != 0xff then Invalid else Accepted(HistoryStop, 3)
    else Unsupported
  }

  function DecodeRuleStatus(p: seq<byte>): Decoded {
    if |p| < 5 then Truncated
    else if !Begins(p, MODBUS, 0x76) then Unsupported
    else if Le16(p[2], p[3]) == 0 then Invalid
    else if p[4] < 1 || p[4] > 3 then Invalid
    else Accepted(RuleStatus(Le16(p[2], p[3]), p[4]), 5)
  }

  function DecodeRuleEnquiry(p: seq<byte>): Decoded {
    if |p| < 3 then Truncated
    else if !Begins(p, MODBUS, 0x77) then Unsupported
    else if p[2] < 1 || p[2] > 16 then Invalid
    else Accepted(RuleEnquiry(p[2]), 3)
  }

  // The length of a rule frame's content, by subtype, or why it is refused.
  datatype Content = Length(slot: byte, length: nat) | Refused(why: Decoded)

  function ConditionContent(p: seq<byte>): Content
    requires |p| >= 4
  {
    match p[3]
    case 0x11 =>
      if |p| < 11 then Refused(Truncated)
      else if p[4] > 0x01 || p[9] > 23 || p[10] > 59 then Refused(Invalid)
      else Length(0, 9)
    case 0x12 =>
      if |p| < 22 then Refused(Truncated)
      else if p[4] < 1 || p[4] > 32 then Refused(Invalid)
      else if p[5] % 16 > 0x07 || p[5] / 16 > 0x01 then Refused(Invalid)
      else Length(0, 20)
    case 0x13 => MessageCondition(p)
    case 0x14 => MessageCondition(p)
    case 0x16 => Length(0, 2)
    case _ => Refused(Unsupported)
  }

  function MessageCondition(p: seq<byte>): Content
    requires |p| >= 4
  {
    if |p| < 5 then Refused(Truncated)
    else if p[4] < 2 || p[4] > 48 then Refused(Invalid)
    else if |p| < 5 + p[4] as int then Refused(Truncated)
    else Length(0, 3 + p[4] as int)
  }

  function ActionContent(p: seq<byte>): Content
    requires |p| >= 4
  {
    var group, kind := p[3] / 16, p[3] % 16;
    if group != 9 && group != 10 && group != 11 then Refused(Unsupported)
    else
      var slot := group - 8;
      var content :=
        match kind
        case 0x0 => Length(slot, 2)
        case 0x1 => MessageAction(p, slot, 1)
        case 0x3 => MessageAction(p, slot, 2)
        case 0x4 => Length(slot, 6)
        case 0x6 => Length(slot, 6)
        case 0x5 => Length(slot, 7)
        case _ => Refused(Unsupported);
      if content.Length? && |p| < 2 + content.length then Refused(Truncated) else content
  }

  function MessageAction(p: seq<byte>, slot: byte, least: byte): Content
    requires |p| >= 4
  {
    if |p| < 9 then Refused(Truncated)
    else if p[8] < least || p[8] > 48 then Refused(Invalid)
    else Length(slot, 7 + p[8] as int)
  }

  function DecodeRuleConfiguration(p: seq<byte>): Decoded {
    if |p| < 4 then Truncated
    else if !Begins(p, MODBUS, 0x7d) then Unsupported
    else if p[2] % 0x80 < 1 || p[2] % 0x80 > 16 then Invalid
    else
      var content := if 0x11 <= p[3] <= 0x16 then ConditionContent(p) else ActionContent(p);
      match content
      case Refused(why) => if why.Accepted? then Invalid else why
      case Length(slot, length) =>
        if length == 0 || length > 55 || |p| < 2 + length then Invalid
        else Accepted(RuleConfiguration(p[2] % 0x80, p[2] >= 0x80, slot, p[..2 + length]), 2 + length)
  }

  function DecodeReportInterval(p: seq<byte>): Decoded {
    if |p| < 4 then Truncated
    else if !Begins(p, SYSTEM, 0x03) then Unsupported
    else
      var seconds := Le16(p[2], p[3]);
      if seconds < 60 || seconds > 64800 then Invalid else Accepted(ReportInterval(seconds), 4)
  }

  function DecodeModbusChannel(p: seq<byte>): Decoded {
    if |p| < 3 then Truncated
    else if !Begins(p, SYSTEM, 0xef) then Unsupported
    else match p[2]
      case 0x01 =>
        if |p| < 9 then Truncated
        else if p[3] < 1 || p[3] > 32 || p[4] == 0 || p[4] > 247 || !ValidWireDataType(p[7]) then Invalid
        else if p[8] >= 0x20 || p[8] % 16 < 1 || p[8] % 16 > 2 then Invalid
        else
          var c := ChannelConfig(p[3] - 1, p[4], Le16(p[5], p[6]), p[7], p[8] % 16, p[8] / 16 % 2 == 1, []);
          if ValidChannelConfig(c) then Accepted(ChannelUpsert(c), 9) else Invalid
      case 0x00 =>
        if |p| < 4 then Truncated
        else if p[3] < 1 || p[3] > 32 then Invalid
        else Accepted(ChannelRemove(p[3] - 1), 4)
      case 0x02 =>
        if |p| < 5 then Truncated
        else if p[3] < 1 || p[3] > 32 || p[4] == 0 || p[4] > 16 then Invalid
        else if |p| < 5 + p[4] as int then Truncated
        else Accepted(ChannelName(p[3] - 1, p[5..5 + p[4] as int]), 5 + p[4] as int)
      case _ => Unsupported
  }

  predicate ValidSerial(s: SerialSettings) {
    s.baudRate in {1200, 2400, 4800, 9600, 19200, 38400, 57600, 115200} &&
    7 <= s.dataBits <= 9 && 1 <= s.stopBits <= 3 && s.parity <= 2
  }

  // What the UART of the board supports of the valid settings.
  predicate BoardSupports(s: SerialSettings) {
    ValidSerial(s) && (s.dataBits == 7 || s.dataBits == 8) && s.stopBits != 3
  }

  predicate ValidMaster(s: MasterSettings) {
    10 <= s.executionIntervalMs <= 1000 && 10 <= s.maxResponseTimeMs <= 60000 && s.maxRetryTimes <= 5 &&
    (s.passThroughMode == 0x00 || s.passThroughMode == 0x10 || s.passThroughMode == 0x11) &&
    (2 <= s.passThroughPort <= 84 || 86 <= s.passThroughPort <= 223)
  }

  function DecodeRs485Settings(p: seq<byte>): Decoded {
    if |p| < 9 then Truncated
    else if !Begins(p, MODBUS, 0x78) then Unsupported
    else
      var s := SerialSettings(Le32(p[2], p[3], p[4], p[5]), p[6], p[7], p[8]);
      if ValidSerial(s) then Accepted(Rs485Config(s), 9) else Invalid
  }

  function DecodeMasterSettings(p: seq<byte>): Decoded {
    if |p| < 9 then Truncated
    else if !Begins(p, MODBUS, 0x79) then Unsupported
    else
      var s := MasterSettings(Le16(p[2], p[3]), Le16(p[4], p[5]), p[6], p[7], p[8]);
      if ValidMaster(s) then Accepted(MasterConfig(s), 9) else Invalid
  }

  function DecodeRs485Enquiry(p: seq<byte>): Decoded {
    if |p| < 3 then Truncated
    else if !Begins(p, MODBUS, 0x7a) then Unsupported
    else if p[2] > 0x01 then Invalid
    else Accepted(Rs485Enquiry(p[2]), 3)
  }

  // The dispatch of the parse loop: the header selects the decoder.
  function DecodeNext(p: seq<byte>): Decoded {
    if |p| < 2 then Truncated
    else if p[0] == SYSTEM then DecodeSystem(p)
    else if p[0] == MODBUS then DecodeModbus(p)
    else if p[0] == HISTORY_QUERY && (p[1] == 0x6b || p[1] == 0x6c || p[1] == 0x6d) then DecodeHistoryQuery(p)
    else Unsupported
  }

  function DecodeSystem(p: seq<byte>): Decoded
    requires |p| >= 2
  {
    match p[1]
    case 0x04 => DecodeBasicControl(p)
    case 0x10 => DecodeBasicControl(p)
    case 0xbd => DecodeUtcTimezone(p)
    case 0x4a => DecodeLnsTimeSync(p)
    case 0x68 => DecodeHistoryToggle(p, 0x68)
    case 0x69 => DecodeHistoryToggle(p, 0x69)
    case 0x28 => DecodePeriodicReportEnquiry(p)
    case 0x03 => DecodeReportInterval(p)
    case 0xef => DecodeModbusChannel(p)
    case _ => Unsupported
  }

  function DecodeModbus(p: seq<byte>): Decoded
    requires |p| >= 2
  {
    match p[1]
    case 0x72 => DecodeDstSettings(p)
    case 0x0d => DecodeRetransmissionInterval(p)
    case 0x0e => DecodeRetrievabilityInterval(p)
    case 0x76 => DecodeRuleStatus(p)
    case 0x77 => DecodeRuleEnquiry(p)
    case 0x7d => DecodeRuleConfiguration(p)
    case 0x78 =>
      var d := DecodeRs485Settings(p);
      if d.Accepted? && d.command.Rs485Config? && !BoardSupports(d.command.serial) then Invalid else d
    case 0x79 =>
      var d := DecodeMasterSettings(p);
      if d.Accepted? && d.command.MasterConfig? && !ValidMaster(d.command.master) then Invalid else d
    case 0x7a => DecodeRs485Enquiry(p)
    case _ => Unsupported
  }

  // ---- decoding looks only at what it consumes ----

  predicate SharesPrefix(p: seq<byte>, q: seq<byte>, n: nat) {
    n <= |p| && n <= |q| && p[..n] == q[..n]
  }

  lemma RuleConfigurationIsLocal(p: seq<byte>, q: seq<byte>)
    requires DecodeRuleConfiguration(p).Accepted?
    ensures 4 <= DecodeRuleConfiguration(p).consumed <= 57 && DecodeRuleConfiguration(p).consumed <= |p|
    ensures SharesPrefix(p, q, DecodeRuleConfiguration(p).consumed) ==> DecodeRuleConfiguration(q) == DecodeRuleConfiguration(p)
  {
    var n := DecodeRuleConfiguration(p).consumed;
    if SharesPrefix(p, q, n) { SamePrefixBytes(p, q, n); }
  }

  lemma SamePrefixBytes(p: seq<byte>, q: seq<byte>, n: nat)
    requires SharesPrefix(p, q, n)
    ensures forall i :: 0 <= i < n ==> p[i] == q[i]
  {
    forall i | 0 <= i < n
      ensures p[i] == q[i]
    {
      assert p[i] == p[..n][i] && q[i] == q[..n][i];
    }
  }

  lemma ModbusChannelIsLocal(p: seq<byte>, q: seq<byte>)
    requires DecodeModbusChannel(p).Accepted?
    ensures 3 <= DecodeModbusChannel(p).consumed <= 57 && DecodeModbusChannel(p).consumed <= |p|
    ensures SharesPrefix(p, q, DecodeModbusChannel(p).consumed) ==> DecodeModbusChannel(q) == DecodeModbusChannel(p)
  {
    var n := DecodeModbusChannel(p).consumed;
    if SharesPrefix(p, q, n) {
      SamePrefixBytes(p, q, n);
      if p[2] == 0x02 { assert p[5..n] == p[..n][5..] && q[5..n] == q[..n][5..]; }
    }
  }

  lemma SystemIsLocal(p: seq<byte>, q: seq<byte>)
    requires |p| >= 2 && p[0] == SYSTEM && DecodeSystem(p).Accepted?
    ensures 3 <= DecodeSystem(p).consumed <= 57 && DecodeSystem(p).consumed <= |p|
    ensures SharesPrefix(p, q, DecodeSystem(p).consumed) ==> |q| >= 2 && DecodeSystem(q) == DecodeSystem(p)
  {
    if p[1] == 0xef { ModbusChannelIsLocal(p, q); }
    hide DecodeModbusChannel;
    var n := DecodeSystem(p).consumed;
    if SharesPrefix(p, q, n) { SamePrefixBytes(p, q, n); }
  }

  lemma ModbusIsLocal(p: seq<byte>, q: seq<byte>)
    requires |p| >= 2 && p[0] == MODBUS && DecodeModbus(p).Accepted?
    ensures 3 <= DecodeModbus(p).consumed <= 57 && DecodeModbus(p).consumed <= |p|
    ensures SharesPrefix(p, q, DecodeModbus(p).consumed) ==> |q| >= 2 && DecodeModbus(q) == DecodeModbus(p)
  {
    if p[1] == 0x7d { RuleConfigurationIsLocal(p, q); }
    hide DecodeRuleConfiguration, ValidMaster, ValidSerial;
    var n := DecodeModbus(p).consumed;
    if SharesPrefix(p, q, n) { SamePrefixBytes(p, q, n); }
  }

  lemma QueryIsLocal(p: seq<byte>, q: seq<byte>)
    requires DecodeHistoryQuery(p).Accepted?
    ensures 3 <= DecodeHistoryQuery(p).consumed <= 57 && DecodeHistoryQuery(p).consumed <= |p|
    ensures SharesPrefix(p, q, DecodeHistoryQuery(p).consumed) ==> DecodeHistoryQuery(q) == DecodeHistoryQuery(p)
  {
    var n := DecodeHistoryQuery(p).consumed;
    if SharesPrefix(p, q, n) { SamePrefixBytes(p, q, n); }
  }

  // Main lemma: a successful decode consumes 3 to 57 bytes inside the payload and depends on no
  // other byte.
  lemma DecodeIsLocal(p: seq<byte>, q: seq<byte>)
    requires DecodeNext(p).Accepted?
    ensures 3 <= DecodeNext(p).consumed <= 57 && DecodeNext(p).consumed <= |p|
    ensures SharesPrefix(p, q, DecodeNext(p).consumed) ==> DecodeNext(q) == DecodeNext(p)
  {
    hide DecodeSystem, DecodeModbus, DecodeHistoryQuery;
    var n := DecodeNext(p).consumed;
    if p[0] == SYSTEM { SystemIsLocal(p, q); } else if p[0] == MODBUS { ModbusIsLocal(p, q); } else { QueryIsLocal(p, q); }
    if SharesPrefix(p, q, n) { SamePrefixBytes(p, q, n); }
  }

  // ---- the parse loop ----

  function Parse(p: seq<byte>): Option<seq<Command>>
    decreases |p|
  {
    if p == [] then Some([])
    else
      var d := DecodeNext(p);
      if !d.Accepted? || d.consumed == 0 || d.consumed > |p| then None
      else match Parse(p[d.consumed..])
        case None => None
        case Some(rest) => Some([d.command] + rest)
  }

  function Joined(a: Option<seq<Command>>, b: Option<seq<Command>>): Option<seq<Command>> {
    if a.Some? && b.Some? then Some(a.value + b.value) else None
  }

  // Main result: parsing is compositional. What precedes a payload that parses does not change
  // what follows, in both directions.
  lemma {:induction false} ParseIsCompositional(a: seq<byte>, b: seq<byte>)
    requires Parse(a).Some?
    ensures Parse(a + b) == Joined(Parse(a), Parse(b))
    decreases |a|
  {
    hide DecodeNext;
    if a == [] {
      assert a + b == b;
      if Parse(b).Some? { assert [] + Parse(b).value == Parse(b).value; }
    } else {
      var d := DecodeNext(a);
      DecodeIsLocal(a, a + b);
      assert (a + b)[..d.consumed] == a[..d.consumed];
      assert (a + b)[d.consumed..] == a[d.consumed..] + b;
      ParseIsCompositional(a[d.consumed..], b);
      if Parse(b).Some? {
        assert [d.command] + (Parse(a[d.consumed..]).value + Parse(b).value)
            == ([d.command] + Parse(a[d.consumed..]).value) + Parse(b).value;
      }
    }
  }

  // The bytes of exactly one command.
  predicate OneCommand(w: seq<byte>) {
    DecodeNext(w).Accepted? && DecodeNext(w).consumed == |w|
  }

  // Main result: the stream is uniquely decodable. A payload is at most one sequence of commands.
  lemma {:induction false} UniquelyDecodable(ws: seq<seq<byte>>, vs: seq<seq<byte>>)
    requires (forall i :: 0 <= i < |ws| ==> OneCommand(ws[i])) && (forall i :: 0 <= i < |vs| ==> OneCommand(vs[i]))
    requires Concat(ws) == Concat(vs)
    ensures ws == vs
    decreases |ws|
  {
    hide DecodeNext;
    if ws == [] || vs == [] {
      if ws != [] { DecodeIsLocal(ws[0], ws[0]); }
      if vs != [] { DecodeIsLocal(vs[0], vs[0]); }
    } else {
      var s := Concat(ws);
      DecodeIsLocal(ws[0], s);
      DecodeIsLocal(vs[0], s);
      assert s[..|ws[0]|] == ws[0] && s[..|vs[0]|] == vs[0];
      assert ws[0][..|ws[0]|] == ws[0] && vs[0][..|vs[0]|] == vs[0];
      assert |ws[0]| == |vs[0]|;
      assert Concat(ws[1..]) == s[|ws[0]|..] == Concat(vs[1..]);
      UniquelyDecodable(ws[1..], vs[1..]);
      assert ws == [ws[0]] + ws[1..] && vs == [vs[0]] + vs[1..];
    }
  }

  function CommandsOf(words: seq<seq<byte>>): seq<Command>
    requires forall i :: 0 <= i < |words| ==> OneCommand(words[i])
  {
    seq(|words|, i requires 0 <= i < |words| && OneCommand(words[i]) => DecodeNext(words[i]).command)
  }

  // A payload parses exactly when it is a sequence of commands, and parses to those.
  lemma {:induction false} WordsParse(words: seq<seq<byte>>)
    requires forall i :: 0 <= i < |words| ==> OneCommand(words[i])
    ensures Parse(Concat(words)) == Some(CommandsOf(words))
    decreases |words|
  {
    hide DecodeNext;
    if words == [] {
    } else {
      var w, rest := words[0], Concat(words[1..]);
      DecodeIsLocal(w, w + rest);
      assert (w + rest)[..|w|] == w && w[..|w|] == w && (w + rest)[|w|..] == rest;
      WordsParse(words[1..]);
      assert CommandsOf(words) == [DecodeNext(w).command] + CommandsOf(words[1..]);
    }
  }

  lemma {:induction false} ParseHasWords(p: seq<byte>) returns (words: seq<seq<byte>>)
    requires Parse(p).Some?
    ensures forall i :: 0 <= i < |words| ==> OneCommand(words[i])
    ensures Concat(words) == p && CommandsOf(words) == Parse(p).value
    decreases |p|
  {
    hide DecodeNext;
    if p == [] {
      words := [];
    } else {
      var n := DecodeNext(p).consumed;
      var w := p[..n];
      DecodeIsLocal(p, w);
      assert w[..n] == w;
      var rest := ParseHasWords(p[n..]);
      words := [w] + rest;
      assert words[1..] == rest;
      assert CommandsOf(words) == [DecodeNext(w).command] + CommandsOf(rest);
    }
  }

  // ---- the handler ----

  predicate AllowedMessageByte(b: byte) {
    0x41 <= b <= 0x5a || 0x61 <= b <= 0x7a || 0x30 <= b <= 0x39 || b == 0x2c || b == 0x2e || b == 0x20 || b == 0x21
  }

  predicate ServerMessage(p: seq<byte>) {
    2 <= |p| <= 48 && forall i :: 0 <= i < |p| ==> AllowedMessageByte(p[i])
  }

  // Letters, digits, comma, period, space and exclamation mark.
  lemma AllowedMeans(b: byte)
    ensures AllowedMessageByte(b) <==>
            var c := b as char;
            'A' <= c <= 'Z' || 'a' <= c <= 'z' || '0' <= c <= '9' || c == ',' || c == '.' || c == ' ' || c == '!'
  {
  }

  // A text that may trigger rules is never also a command payload.
  lemma TextNeverParses(p: seq<byte>)
    requires ServerMessage(p)
    ensures Parse(p) == None
  {
    assert AllowedMessageByte(p[0]);
  }

  // How many of n commands are applied: up to the first that is refused.
  function AppliedCount(accepts: nat -> bool, n: nat, k: nat): (m: nat)
    requires k <= n
    ensures k <= m <= n && (forall i :: k <= i < m ==> accepts(i)) && (m < n ==> !accepts(m))
    decreases n - k
  {
    if k == n || !accepts(k) then k else AppliedCount(accepts, n, k + 1)
  }

  lemma ParseOneMore(payload: seq<byte>, offset: nat, commands: seq<Command>)
    requires offset < |payload| && DecodeNext(payload[offset..]).Accepted?
    ensures var d := DecodeNext(payload[offset..]);
            0 < d.consumed && offset + d.consumed <= |payload| &&
            Joined(Some(commands), Parse(payload[offset..]))
            == Joined(Some(commands + [d.command]), Parse(payload[offset + d.consumed..]))
  {
    hide DecodeNext;
    var rest := payload[offset..];
    var d := DecodeNext(rest);
    DecodeIsLocal(rest, rest);
    assert rest[d.consumed..] == payload[offset + d.consumed..];
    var later := Parse(rest[d.consumed..]);
    if later.Some? { assert commands + ([d.command] + later.value) == (commands + [d.command]) + later.value; }
  }

  class Handler {
    var applied: seq<Command>

    constructor ()
      ensures applied == []
    {
      applied := [];
    }

    // The parse loop of the handler.
    method ParsePayload(payload: seq<byte>) returns (ok: bool, commands: seq<Command>)
      ensures match Parse(payload)
              case None => !ok
              case Some(all) => ok && commands == all
    {
      hide DecodeNext;
      commands := [];
      var offset := 0;
      assert payload[0..] == payload;
      assert Parse(payload).Some? ==> [] + Parse(payload).value == Parse(payload).value;
      while offset < |payload|
        invariant 0 <= offset <= |payload|
        invariant Parse(payload) == Joined(Some(commands), Parse(payload[offset..]))
        decreases |payload| - offset
      {
        var rest := payload[offset..];
        var decoded := DecodeNext(rest);
        if !decoded.Accepted? || decoded.consumed == 0 { return false, []; }
        ParseOneMore(payload, offset, commands);
        commands := commands + [decoded.command];
        offset := offset + decoded.consumed;
      }
      assert payload[offset..] == [];
      assert commands + [] == commands;
      return true, commands;
    }

    // `passThrough` is what the fieldbus component answers to a payload for its own port, `matched`
    // whether some enabled rule waits for the text, `accepts` whether the k-th command of the
    // payload is applied.
    method HandleDownlink(fport: byte, payload: seq<byte>, passThrough: bool, matched: bool, accepts: nat -> bool) returns (ok: bool)
      modifies this
      ensures var text := ServerMessage(payload) && matched;
              if payload == [] then !ok && applied == old(applied)
              else if fport != 85 then ok == passThrough && applied == old(applied)
              else if text then ok && applied == old(applied)
              else match Parse(payload)
                case None => !ok && applied == old(applied)
                case Some(commands) =>
                  var m := AppliedCount(accepts, |commands|, 0);
                  ok == (m == |commands|) && applied == old(applied) + commands[..m]
    {
      if |payload| == 0 { return false; }
      if fport != 85 { return passThrough; }
      if ServerMessage(payload) && matched { return true; }
      var parsed, commands := ParsePayload(payload);
      if !parsed { return false; }
      for k := 0 to |commands|
        invariant applied == old(applied) + commands[..k]
        invariant AppliedCount(accepts, |commands|, 0) == AppliedCount(accepts, |commands|, k)
      {
        if !accepts(k) { return false; }
        applied := applied + [commands[k]];
      }
      return true;
    }
  }

  // ---- settings replies are settings commands ----

  // The reply to a settings enquiry: a four-byte header and the settings as a command.
  function EnquiryReply(kind: byte, serial: SerialSettings, master: MasterSettings): Option<seq<byte>> {
    if kind == 0x00 && ValidSerial(serial) then
      Some([0xf8, 0x7a, kind, 0x00, MODBUS, 0x78] + ToLe(serial.baudRate, 4) + [serial.dataBits, serial.stopBits, serial.parity])
    else if kind == 0x01 && ValidMaster(master) then
      Some([0xf8, 0x7a, kind, 0x00, MODBUS, 0x79] + ToLe(master.executionIntervalMs, 2) + ToLe(master.maxResponseTimeMs, 2)
           + [master.maxRetryTimes, master.passThroughMode, master.passThroughPort])
    else None
  }

  lemma ReplyDecodes(kind: byte, serial: SerialSettings, master: MasterSettings)
    requires EnquiryReply(kind, serial, master).Some?
    ensures var reply := EnquiryReply(kind, serial, master).value;
            |reply| == 13 && reply[4] == MODBUS && reply[5] == (if kind == 0x00 then 0x78 else 0x79) &&
            (kind == 0x00 ==> DecodeRs485Settings(reply[4..]) == Accepted(Rs485Config(serial), 9)) &&
            (kind == 0x01 ==> DecodeMasterSettings(reply[4..]) == Accepted(MasterConfig(master), 9))
  {
    hide ToLe, FromLe;
    var reply := EnquiryReply(kind, serial, master).value;
    var p := reply[4..];
    Pow256Values();
    if kind == 0x00 {
      var field := ToLe(serial.baudRate, 4);
      FromLeToLe(serial.baudRate, 4);
      FromLeOf4(field);
      assert p[2] == field[0] && p[3] == field[1] && p[4] == field[2] && p[5] == field[3];
    } else {
      var first, second := ToLe(master.executionIntervalMs, 2), ToLe(master.maxResponseTimeMs, 2);
      FromLeToLe(master.executionIntervalMs, 2); FromLeToLe(master.maxResponseTimeMs, 2);
      FromLeOf2(first); FromLeOf2(second);
      assert p[2] == first[0] && p[3] == first[1] && p[4] == second[0] && p[5] == second[1];
    }
  }

  // Sent back as a downlink, the settings in a reply parse to the same settings; serial settings
  // exactly when the board supports them.
  lemma ReplyRoundTrip(kind: byte, serial: SerialSettings, master: MasterSettings)
    requires EnquiryReply(kind, serial, master).Some?
    ensures |EnquiryReply(kind, serial, master).value| == 13
    ensures var p := EnquiryReply(kind, serial, master).value[4..];
            (kind == 0x00 ==> Parse(p) == if BoardSupports(serial) then Some([Rs485Config(serial)]) else None) &&
            (kind == 0x01 ==> Parse(p) == Some([MasterConfig(master)]))
  {
    hide DecodeRs485Settings, DecodeMasterSettings;
    ReplyDecodes(kind, serial, master);
    assert kind == 0x01 ==> ValidMaster(master);
    hide EnquiryReply, BoardSupports, ValidMaster;
    var p := EnquiryReply(kind, serial, master).value[4..];
    assert p[0] == MODBUS && p[1] == if kind == 0x00 then 0x78 else 0x79;
    assert DecodeNext(p) == DecodeModbus(p);
    ParseOne(p);
  }

  lemma ParseOne(p: seq<byte>)
    requires p != [] && (DecodeNext(p).Accepted? ==> DecodeNext(p).consumed == |p|)
    ensures Parse(p) == if DecodeNext(p).Accepted? then Some([DecodeNext(p).command]) else None
  {
    hide DecodeNext;
    assert p[|p|..] == [] && Parse([]) == Some([]);
    if DecodeNext(p).Accepted? { assert [DecodeNext(p).command] + [] == [DecodeNext(p).command]; }
  }

  // A channel condition that the downlink accepts becomes an executable plan exactly when it does
  // not name the reserved mode 5, its times are at most a day and its limits are finite.
  lemma AcceptedConditionIsExecutable(float: u32 -> Option<real>, p: seq<byte>)
    requires DecodeRuleConfiguration(p).Accepted? && p[3] == 0x12
    ensures var frame := DecodeRuleConfiguration(p).command.frame;
            var first, second := Le32(p[14], p[15], p[16], p[17]), Le32(p[18], p[19], p[20], p[21]);
            |frame| == 22 &&
            (RuleCondition.DecodePlan(float, frame).Some? <==>
               p[5] % 16 != 5 &&
               Le32(p[6], p[7], p[8], p[9]) <= RuleCondition.DAY_MS && Le32(p[10], p[11], p[12], p[13]) <= RuleCondition.DAY_MS &&
               float(second).Some? &&
               (if p[5] % 16 == 7 then first <= RuleCondition.DAY_MS else float(first).Some?))
  {
  }
}
