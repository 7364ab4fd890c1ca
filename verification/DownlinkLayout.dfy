// The byte layout of every downlink command, written from its fields, and the settings that the
// firmware takes. The decoders are proved to read exactly these layouts.
module DownlinkLayout {
  import opened Words
  import opened Channel
  import opened Downlink
  import LocalTime

  // Little-endian fields.
  function Word(v: u16): (s: seq<byte>)
    ensures |s| == 2
  {
    [v % 256, v / 256]
  }

  function DoubleWord(v: u32): (s: seq<byte>)
    ensures |s| == 4
  {
    Word(v % 0x1_0000) + Word(v / 0x1_0000)
  }

  function Flag(b: bool, weight: byte): byte {
    if b then weight else 0
  }

  // ---- rules ----

  // What a rule is about: one of four conditions or one of the kinds of action in slot 1 to 3.
  datatype RuleContent =
    | TimeCondition(repeated: byte, days: seq<byte>, hour: byte, minute: byte)
    | ChannelCondition(channel: byte, mode: byte, timing: byte, operands: seq<byte>)
    | MessageCondition(timed: bool, text: seq<byte>)
    | RebootCondition
    | ShortAction(slot: byte)
    | TextAction(slot: byte, target: seq<byte>, text: seq<byte>)
    | CommandAction(slot: byte, target: seq<byte>, command: seq<byte>)
    | FixedAction(slot: byte, kind: byte, operands: seq<byte>)

  predicate AcceptableRule(r: RuleContent) {
    match r
    case TimeCondition(repeated, days, hour, minute) => repeated <= 1 && |days| == 4 && hour <= 23 && minute <= 59
    case ChannelCondition(channel, mode, timing, operands) => 1 <= channel <= 32 && mode <= 7 && timing <= 1 && |operands| == 16
    case MessageCondition(_, text) => 2 <= |text| <= 48
    case RebootCondition => true
    case ShortAction(slot) => 1 <= slot <= 3
    case TextAction(slot, target, text) => 1 <= slot <= 3 && |target| == 4 && 1 <= |text| <= 48
    case CommandAction(slot, target, command) => 1 <= slot <= 3 && |target| == 4 && 2 <= |command| <= 48
    case FixedAction(slot, kind, operands) =>
      1 <= slot <= 3 && (kind == 4 || kind == 5 || kind == 6) && |operands| == if kind == 5 then 5 else 4
  }

  function SlotOf(r: RuleContent): byte {
    match r
    case ShortAction(slot) => slot
    case TextAction(slot, _, _) => slot
    case CommandAction(slot, _, _) => slot
    case FixedAction(slot, _, _) => slot
    case _ => 0
  }

  function RuleBytes(r: RuleContent): (bytes: seq<byte>)
    requires AcceptableRule(r)
    ensures 1 <= |bytes| <= 54
  {
    match r
    case TimeCondition(repeated, days, hour, minute) => [0x11, repeated] + days + [hour, minute]
    case ChannelCondition(channel, mode, timing, operands) => [0x12, channel, 16 * timing + mode] + operands
    case MessageCondition(timed, text) => [if timed then 0x14 else 0x13, |text|] + text
    case RebootCondition => [0x16]
    case ShortAction(slot) => [0x80 + 16 * slot]
    case TextAction(slot, target, text) => [0x81 + 16 * slot] + target + [|text|] + text
    case CommandAction(slot, target, command) => [0x83 + 16 * slot] + target + [|command|] + command
    case FixedAction(slot, kind, operands) => [0x80 + 16 * slot + kind] + operands
  }

  function RuleFrame(ruleId: byte, enabled: bool, r: RuleContent): seq<byte>
    requires 1 <= ruleId <= 16 && AcceptableRule(r)
  {
    [0xf9, 0x7d, Flag(enabled, 0x80) + ruleId] + RuleBytes(r)
  }

  ghost predicate IsRuleFrame(ruleId: byte, enabled: bool, slot: byte, frame: seq<byte>) {
    1 <= ruleId <= 16 && exists r :: AcceptableRule(r) && SlotOf(r) == slot && frame == RuleFrame(ruleId, enabled, r)
  }

  // ---- every command ----

  predicate AcceptableTransition(t: LocalTime.Transition) {
    1 <= t.month <= 12 && 1 <= t.week <= 5 && 1 <= t.weekday <= 7 && t.minuteOfDay < 1440
  }

  predicate AcceptableDst(d: LocalTime.Dst) {
    d.biasMinutes <= 120 && d.start.week < 16 && d.start.weekday < 16 && d.end.week < 16 && d.end.weekday < 16 &&
    (d.enabled ==> d.biasMinutes > 0 && AcceptableTransition(d.start) && AcceptableTransition(d.end))
  }

  predicate AcceptableChannel(c: ChannelConfig) {
    c.slot < 32 && 1 <= c.slaveId <= 247 && c.dataType <= 0x29 && 1 <= c.quantity <= 2 && c.name == []
  }

  predicate AcceptableSerial(s: SerialSettings) {
    s.baudRate in {1200, 2400, 4800, 9600, 19200, 38400, 57600, 115200} &&
    s.dataBits in {7, 8} && s.stopBits in {1, 2} && s.parity in {0, 1, 2}
  }

  predicate AcceptableMaster(s: MasterSettings) {
    10 <= s.executionIntervalMs <= 1000 && 10 <= s.maxResponseTimeMs <= 60000 && s.maxRetryTimes <= 5 &&
    s.passThroughMode in {0x00, 0x10, 0x11} && 2 <= s.passThroughPort <= 223 && s.passThroughPort != 85
  }

  // The commands the firmware takes.
  ghost predicate Acceptable(c: Command) {
    match c
    case UtcTimezone(minutes) => -720 <= minutes <= 840
    case DstSettings(dst) => AcceptableDst(dst)
    case RetransmissionInterval(seconds) => 30 <= seconds <= 1200
    case RetrievabilityInterval(seconds) => 30 <= seconds <= 1200
    case ReportInterval(seconds) => 60 <= seconds <= 64800
    case RuleStatus(mask, operation) => mask != 0 && 1 <= operation <= 3
    case RuleEnquiry(id) => 1 <= id <= 16
    case RuleConfiguration(id, enabled, slot, frame) => IsRuleFrame(id, enabled, slot, frame)
    case ChannelUpsert(channel) => AcceptableChannel(channel)
    case ChannelRemove(slot) => slot < 32
    case ChannelName(slot, name) => slot < 32 && 1 <= |name| <= 16
    case Rs485Config(serial) => AcceptableSerial(serial)
    case MasterConfig(master) => AcceptableMaster(master)
    case Rs485Enquiry(kind) => kind <= 1
    case _ => true
  }

  function TransitionBytes(t: LocalTime.Transition): seq<byte>
    requires t.week < 16 && t.weekday < 16
  {
    [t.month, 16 * t.week + t.weekday] + Word(t.minuteOfDay)
  }

  function ChannelBytes(c: ChannelConfig): seq<byte>
    requires AcceptableChannel(c)
  {
    [0xff, 0xef, 0x01, c.slot + 1, c.slaveId] + Word(c.address) + [c.dataType, Flag(c.signedValue, 0x10) + c.quantity]
  }

  function SystemBytes(c: Command): seq<byte>
    requires Acceptable(c)
  {
    match c
    case Rejoin => [0xff, 0x04, 0xff]
    case Reboot => [0xff, 0x10, 0xff]
    case PeriodicReportEnquiry => [0xff, 0x28, 0xff]
    case LnsTimeSync => [0xff, 0x4a, 0x00]
    case UtcTimezone(minutes) => [0xff, 0xbd] + Word(if minutes < 0 then minutes + 0x10000 else minutes)
    case DataStorage(on) => [0xff, 0x68, Flag(on, 1)]
    case DataRetransmission(on) => [0xff, 0x69, Flag(on, 1)]
    case ReportInterval(seconds) => [0xff, 0x03] + Word(seconds)
    case ChannelUpsert(channel) => ChannelBytes(channel)
    case ChannelRemove(slot) => [0xff, 0xef, 0x00, slot + 1]
    case ChannelName(slot, name) => [0xff, 0xef, 0x02, slot + 1, |name|] + name
    case _ => []
  }

  function ModbusBytes(c: Command): seq<byte>
    requires Acceptable(c)
  {
    match c
    case DstSettings(dst) =>
      [0xf9, 0x72, Flag(dst.enabled, 0x80) + dst.biasMinutes] + TransitionBytes(dst.start) + TransitionBytes(dst.end)
    case RetransmissionInterval(seconds) => [0xf9, 0x0d] + Word(seconds)
    case RetrievabilityInterval(seconds) => [0xf9, 0x0e] + Word(seconds)
    case RuleStatus(mask, operation) => [0xf9, 0x76] + Word(mask) + [operation]
    case RuleEnquiry(id) => [0xf9, 0x77, id]
    case RuleConfiguration(_, _, _, frame) => frame
    case Rs485Config(s) => [0xf9, 0x78] + DoubleWord(s.baudRate) + [s.dataBits, s.stopBits, s.parity]
    case MasterConfig(s) =>
      [0xf9, 0x79] + Word(s.executionIntervalMs) + Word(s.maxResponseTimeMs) + [s.maxRetryTimes, s.passThroughMode, s.passThroughPort]
    case Rs485Enquiry(kind) => [0xf9, 0x7a, kind]
    case _ => []
  }

  function QueryBytes(c: Command): seq<byte> {
    match c
    case HistoryPoint(at) => [0xfd, 0x6b] + DoubleWord(at)
    case HistoryRange(from, until) => [0xfd, 0x6c] + DoubleWord(from) + DoubleWord(until)
    case HistoryStop => [0xfd, 0x6d, 0xff]
    case _ => []
  }

  predicate IsSystem(c: Command) {
    c.Rejoin? || c.Reboot? || c.PeriodicReportEnquiry? || c.LnsTimeSync? || c.UtcTimezone? || c.DataStorage? ||
    c.DataRetransmission? || c.ReportInterval? || c.ChannelUpsert? || c.ChannelRemove? || c.ChannelName?
  }

  predicate IsHistory(c: Command) {
    c.HistoryPoint? || c.HistoryRange? || c.HistoryStop?
  }

  // The bytes of a command.
  function Encode(c: Command): seq<byte>
    requires Acceptable(c)
  {
    if IsSystem(c) then SystemBytes(c) else if IsHistory(c) then QueryBytes(c) else ModbusBytes(c)
  }

  // ---- fields ----

  lemma WordReads(v: u16)
    ensures Le16(Word(v)[0], Word(v)[1]) == v
  {
  }

  lemma DoubleWordReads(v: u32)
    ensures var d := DoubleWord(v); Le32(d[0], d[1], d[2], d[3]) == v
  {
    WordReads(v % 0x1_0000); WordReads(v / 0x1_0000);
  }

  lemma WordOf(low: byte, high: byte)
    ensures Le16(low, high) < 0x1_0000 && Word(Le16(low, high)) == [low, high]
  {
  }

  lemma DoubleWordOf(b0: byte, b1: byte, b2: byte, b3: byte)
    ensures Le32(b0, b1, b2, b3) < TWO_32 && DoubleWord(Le32(b0, b1, b2, b3)) == [b0, b1, b2, b3]
  {
    WordOf(b0, b1); WordOf(b2, b3);
    var low, high := Le16(b0, b1), Le16(b2, b3);
    assert Le32(b0, b1, b2, b3) == low + 0x1_0000 * high;
    Halves(low, high);
    hide Word, Le16;
  }

  lemma Halves(low: u16, high: u16)
    ensures (low + 0x1_0000 * high) % 0x1_0000 == low && (low + 0x1_0000 * high) / 0x1_0000 == high
  {
  }

  // ---- every encoding is decoded ----

  lemma ChannelDecodes(c: Command)
    requires Acceptable(c) && (c.ChannelUpsert? || c.ChannelRemove? || c.ChannelName?)
    ensures DecodeModbusChannel(SystemBytes(c)) == Accepted(c, |SystemBytes(c)|)
  {
    var p := SystemBytes(c);
    if c.ChannelUpsert? {
      WordReads(c.channel.address);
      assert p[5] == Word(c.channel.address)[0] && p[6] == Word(c.channel.address)[1];
    } else if c.ChannelName? {
      assert p[5..5 + |c.name|] == c.name;
    }
  }

  lemma SystemDecodes(c: Command)
    requires Acceptable(c) && IsSystem(c)
    ensures DecodeNext(SystemBytes(c)) == Accepted(c, |SystemBytes(c)|)
  {
    hide IsRuleFrame;
    if c.ChannelUpsert? || c.ChannelRemove? || c.ChannelName? { ChannelDecodes(c); }
    hide DecodeModbusChannel;
    var p := SystemBytes(c);
    if c.UtcTimezone? {
      WordReads(if c.offsetMinutes < 0 then c.offsetMinutes + 0x10000 else c.offsetMinutes);
    } else if c.ReportInterval? {
      WordReads(c.seconds);
    }
  }

  lemma QueryDecodes(c: Command)
    requires IsHistory(c)
    ensures DecodeNext(QueryBytes(c)) == Accepted(c, |QueryBytes(c)|)
  {
    if c.HistoryPoint? {
      DoubleWordReads(c.at);
    } else if c.HistoryRange? {
      DoubleWordReads(c.from); DoubleWordReads(c.to);
    }
  }

  lemma DstDecodes(dst: LocalTime.Dst)
    requires AcceptableDst(dst)
    ensures DecodeDstSettings(ModbusBytes(DstSettings(dst))) == Accepted(DstSettings(dst), 11)
  {
    hide Word, DecodeDstSettings;
    var p := ModbusBytes(DstSettings(dst));
    WordReads(dst.start.minuteOfDay); WordReads(dst.end.minuteOfDay);
    assert p[5] == Word(dst.start.minuteOfDay)[0] && p[6] == Word(dst.start.minuteOfDay)[1];
    assert p[9] == Word(dst.end.minuteOfDay)[0] && p[10] == Word(dst.end.minuteOfDay)[1];
    DstReads(dst, p);
  }

  lemma DstReads(dst: LocalTime.Dst, p: seq<byte>)
    requires AcceptableDst(dst) && |p| == 11 && p[0] == 0xf9 && p[1] == 0x72
    requires p[2] == Flag(dst.enabled, 0x80) + dst.biasMinutes
    requires p[3] == dst.start.month && p[4] == 16 * dst.start.week + dst.start.weekday
    requires Le16(p[5], p[6]) == dst.start.minuteOfDay
    requires p[7] == dst.end.month && p[8] == 16 * dst.end.week + dst.end.weekday
    requires Le16(p[9], p[10]) == dst.end.minuteOfDay
    ensures DecodeDstSettings(p) == Accepted(DstSettings(dst), 11)
  {
    hide Le16;
  }

  lemma SettingsDecode(c: Command)
    requires Acceptable(c) && (c.Rs485Config? || c.MasterConfig?)
    ensures DecodeNext(ModbusBytes(c)) == Accepted(c, 9)
  {
    hide IsRuleFrame;
    var p := ModbusBytes(c);
    if c.Rs485Config? {
      DoubleWordReads(c.serial.baudRate);
      hide DoubleWord, Le32, DecodeMasterSettings;
      assert p[2..6] == DoubleWord(c.serial.baudRate);
    } else {
      WordReads(c.master.executionIntervalMs); WordReads(c.master.maxResponseTimeMs);
      hide Word, Le16, DecodeRs485Settings;
      assert p[2..4] == Word(c.master.executionIntervalMs) && p[4..6] == Word(c.master.maxResponseTimeMs);
    }
  }

  // A rule frame is the one its content has: the subtype selects the fields and the length.
  lemma RuleDecodes(id: byte, enabled: bool, r: RuleContent)
    requires 1 <= id <= 16 && AcceptableRule(r)
    ensures var p := RuleFrame(id, enabled, r);
            DecodeRuleConfiguration(p) == Accepted(RuleConfiguration(id, enabled, SlotOf(r), p), |p|)
  {
    var p := RuleFrame(id, enabled, r);
    hide DecodeRuleConfiguration;
    assert p[2] == Flag(enabled, 0x80) + id && p[3] == RuleBytes(r)[0];
    if r.TimeCondition? || r.ChannelCondition? || r.MessageCondition? || r.RebootCondition? {
      ConditionReads(r, p);
    } else {
      ActionReads(r, p);
    }
    HeaderReads(p, id, enabled, Length(SlotOf(r), |p| - 2));
  }

  lemma ConditionReads(r: RuleContent, p: seq<byte>)
    requires AcceptableRule(r) && (r.TimeCondition? || r.ChannelCondition? || r.MessageCondition? || r.RebootCondition?)
    requires |p| == 3 + |RuleBytes(r)| && p[3..] == RuleBytes(r)
    ensures 0x11 <= p[3] <= 0x16 && ConditionContent(p) == Length(0, |p| - 2)
  {
    assert forall i :: 3 <= i < |p| ==> p[i] == p[3..][i - 3];
  }

  lemma ActionReads(r: RuleContent, p: seq<byte>)
    requires AcceptableRule(r) && !r.TimeCondition? && !r.ChannelCondition? && !r.MessageCondition? && !r.RebootCondition?
    requires |p| == 3 + |RuleBytes(r)| && p[3..] == RuleBytes(r)
    ensures 0x90 <= p[3] && ActionContent(p) == Length(SlotOf(r), |p| - 2)
  {
    assert forall i :: 3 <= i < |p| ==> p[i] == p[3..][i - 3];
  }

  lemma HeaderReads(p: seq<byte>, id: byte, enabled: bool, content: Content)
    requires 4 <= |p| <= 57 && p[0] == 0xf9 && p[1] == 0x7d && p[2] == Flag(enabled, 0x80) + id && 1 <= id <= 16
    requires content.Length? && content.length == |p| - 2
    requires content == if 0x11 <= p[3] <= 0x16 then ConditionContent(p) else ActionContent(p)
    ensures DecodeRuleConfiguration(p) == Accepted(RuleConfiguration(id, enabled, content.slot, p), |p|)
  {
    hide ConditionContent, ActionContent;
    assert p[..|p|] == p;
  }

  lemma ModbusDecodes(c: Command)
    requires Acceptable(c) && !IsSystem(c) && !IsHistory(c)
    ensures DecodeNext(ModbusBytes(c)) == Accepted(c, |ModbusBytes(c)|)
  {
    hide DecodeRuleConfiguration, DecodeDstSettings;
    if c.RuleConfiguration? {
      var r :| AcceptableRule(r) && SlotOf(r) == c.slot && c.frame == RuleFrame(c.ruleId, c.enabled, r);
      RuleDecodes(c.ruleId, c.enabled, r);
    } else if c.DstSettings? {
      DstDecodes(c.dst);
    } else if c.Rs485Config? || c.MasterConfig? {
      SettingsDecode(c);
    } else if c.RuleStatus? {
      WordReads(c.mask);
    } else if c.RetransmissionInterval? {
      WordReads(c.retransmissionSeconds);
    } else if c.RetrievabilityInterval? {
      WordReads(c.retrievabilitySeconds);
    }
  }

  lemma EncodedDecodes(c: Command)
    requires Acceptable(c)
    ensures DecodeNext(Encode(c)) == Accepted(c, |Encode(c)|) && Encode(c) != []
  {
    hide DecodeNext, SystemBytes, ModbusBytes, QueryBytes;
    if IsSystem(c) { SystemDecodes(c); } else if IsHistory(c) { QueryDecodes(c); } else { ModbusDecodes(c); }
    DecodeIsLocal(Encode(c), Encode(c));
  }

  // ---- whatever is decoded is an encoding ----

  lemma ChannelIsEncoded(w: seq<byte>)
    requires DecodeModbusChannel(w).Accepted? && DecodeModbusChannel(w).consumed == |w|
    ensures var c := DecodeModbusChannel(w).command; IsSystem(c) && Acceptable(c) && w == SystemBytes(c)
  {
    var c := DecodeModbusChannel(w).command;
    if w[2] == 0x01 {
      WordOf(w[5], w[6]);
      assert w == [w[0], w[1], w[2], w[3], w[4], w[5], w[6], w[7], w[8]];
    } else if w[2] == 0x00 {
      assert w == [w[0], w[1], w[2], w[3]];
    } else {
      assert w == [w[0], w[1], w[2], w[3], w[4]] + w[5..];
    }
  }

  lemma SystemIsEncoded(w: seq<byte>)
    requires |w| >= 2 && w[0] == SYSTEM && DecodeSystem(w).Accepted? && DecodeSystem(w).consumed == |w|
    ensures var c := DecodeSystem(w).command; IsSystem(c) && Acceptable(c) && w == SystemBytes(c)
  {
    if w[1] == 0xef { ChannelIsEncoded(w); }
    hide DecodeModbusChannel, IsRuleFrame;
    if w[1] != 0xef {
      if |w| == 4 { WordOf(w[2], w[3]); }
      assert |w| == 3 ==> w == [w[0], w[1], w[2]];
      assert |w| == 4 ==> w == [w[0], w[1], w[2], w[3]];
    }
  }

  lemma QueryIsEncoded(w: seq<byte>)
    requires DecodeHistoryQuery(w).Accepted? && DecodeHistoryQuery(w).consumed == |w|
    ensures var c := DecodeHistoryQuery(w).command; IsHistory(c) && w == QueryBytes(c)
  {
    if |w| >= 6 { DoubleWordOf(w[2], w[3], w[4], w[5]); }
    if |w| >= 10 { DoubleWordOf(w[6], w[7], w[8], w[9]); }
    hide DoubleWord, Le32;
    assert |w| == 3 ==> w == [w[0], w[1], w[2]];
    assert |w| == 6 ==> w == [w[0], w[1]] + [w[2], w[3], w[4], w[5]];
    assert |w| == 10 ==> w == [w[0], w[1]] + [w[2], w[3], w[4], w[5]] + [w[6], w[7], w[8], w[9]];
  }

  lemma TransitionOf(month: byte, packed: byte, low: byte, high: byte)
    ensures Le16(low, high) < 0x1_0000
    ensures TransitionBytes(LocalTime.Transition(month, packed / 16, packed % 16, Le16(low, high))) == [month, packed, low, high]
  {
    WordOf(low, high);
    hide Word, Le16;
  }

  lemma DstIsEncoded(w: seq<byte>)
    requires DecodeDstSettings(w).Accepted? && DecodeDstSettings(w).consumed == |w|
    ensures var c := DecodeDstSettings(w).command; c.DstSettings? && AcceptableDst(c.dst) && w == ModbusBytes(c)
  {
    TransitionOf(w[3], w[4], w[5], w[6]); TransitionOf(w[7], w[8], w[9], w[10]);
    var dst := DecodeDstSettings(w).command.dst;
    assert AcceptableDst(dst) && Flag(dst.enabled, 0x80) + dst.biasMinutes == w[2];
    assert TransitionBytes(dst.start) == [w[3], w[4], w[5], w[6]] && TransitionBytes(dst.end) == [w[7], w[8], w[9], w[10]];
    assert |w| == 11 && w[0] == 0xf9 && w[1] == 0x72 && DecodeDstSettings(w).command == DstSettings(dst);
    hide TransitionBytes, DecodeDstSettings, AcceptableDst, Flag;
    assert w == [w[0], w[1], w[2]] + [w[3], w[4], w[5], w[6]] + [w[7], w[8], w[9], w[10]];
  }

  // The content of an accepted rule frame.
  function ContentOf(w: seq<byte>): RuleContent
    requires |w| >= 4
  {
    if w[3] == 0x11 && |w| == 11 then TimeCondition(w[4], w[5..9], w[9], w[10])
    else if w[3] == 0x12 && |w| == 22 then ChannelCondition(w[4], w[5] % 16, w[5] / 16, w[6..])
    else if (w[3] == 0x13 || w[3] == 0x14) && |w| >= 5 then MessageCondition(w[3] == 0x14, w[5..])
    else if w[3] == 0x16 || w[3] < 0x90 then RebootCondition
    else if w[3] % 16 == 0 then ShortAction(w[3] / 16 - 8)
    else if w[3] % 16 == 1 && |w| >= 9 then TextAction(w[3] / 16 - 8, w[4..8], w[9..])
    else if w[3] % 16 == 3 && |w| >= 9 then CommandAction(w[3] / 16 - 8, w[4..8], w[9..])
    else FixedAction(w[3] / 16 - 8, w[3] % 16, w[4..])
  }

  lemma ConditionIsWritten(w: seq<byte>)
    requires 4 <= |w| <= 57 && 0x11 <= w[3] <= 0x16 && ConditionContent(w) == Length(0, |w| - 2)
    ensures var r := ContentOf(w); AcceptableRule(r) && SlotOf(r) == 0 && RuleBytes(r) == w[3..]
  {
    if w[3] == 0x11 {
      assert w[3..] == [w[3], w[4]] + w[5..9] + [w[9], w[10]];
    } else if w[3] == 0x12 {
      assert w[3..] == [w[3], w[4], w[5]] + w[6..];
    } else if w[3] == 0x16 {
      assert w[3..] == [w[3]];
    } else {
      assert w[3..] == [w[3], w[4]] + w[5..];
    }
  }

  lemma ActionIsWritten(w: seq<byte>, slot: byte)
    requires 4 <= |w| <= 57 && !(0x11 <= w[3] <= 0x16) && ActionContent(w) == Length(slot, |w| - 2)
    ensures var r := ContentOf(w); AcceptableRule(r) && SlotOf(r) == slot && RuleBytes(r) == w[3..]
  {
    if w[3] % 16 == 1 || w[3] % 16 == 3 {
      assert w[3..] == [w[3]] + w[4..8] + [w[8]] + w[9..];
    } else {
      assert w[3..] == [w[3]] + w[4..];
    }
  }

  lemma RuleIsEncoded(w: seq<byte>)
    requires DecodeRuleConfiguration(w).Accepted? && DecodeRuleConfiguration(w).consumed == |w|
    ensures var c := DecodeRuleConfiguration(w).command;
            c.RuleConfiguration? && IsRuleFrame(c.ruleId, c.enabled, c.slot, c.frame) && w == c.frame
  {
    hide ConditionContent, ActionContent, RuleBytes, AcceptableRule, ContentOf, SlotOf;
    var c := DecodeRuleConfiguration(w).command;
    assert w[..|w|] == w;
    if 0x11 <= w[3] <= 0x16 {
      assert ConditionContent(w).slot == 0 by { ConditionsHaveSlotZero(w); }
      ConditionIsWritten(w);
    } else {
      ActionIsWritten(w, c.slot);
    }
    assert w == [w[0], w[1], w[2]] + w[3..];
    assert w[2] == Flag(c.enabled, 0x80) + c.ruleId;
    assert c.frame == RuleFrame(c.ruleId, c.enabled, ContentOf(w));
  }

  lemma ConditionsHaveSlotZero(w: seq<byte>)
    requires |w| >= 4 && ConditionContent(w).Length?
    ensures ConditionContent(w).slot == 0
  {
  }

  lemma ModbusIsEncoded(w: seq<byte>)
    requires |w| >= 2 && w[0] == MODBUS && DecodeModbus(w).Accepted? && DecodeModbus(w).consumed == |w|
    ensures var c := DecodeModbus(w).command; !IsSystem(c) && !IsHistory(c) && Acceptable(c) && w == ModbusBytes(c)
  {
    if w[1] == 0x7d {
      RuleIsEncoded(w);
    } else if w[1] == 0x72 {
      DstIsEncoded(w);
    } else {
      hide DecodeRuleConfiguration, DecodeDstSettings;
      SettingIsEncoded(w);
    }
  }

  lemma SettingIsEncoded(w: seq<byte>)
    requires |w| >= 2 && w[0] == MODBUS && w[1] != 0x7d && w[1] != 0x72
    requires DecodeModbus(w).Accepted? && DecodeModbus(w).consumed == |w|
    ensures var c := DecodeModbus(w).command; !IsSystem(c) && !IsHistory(c) && Acceptable(c) && w == ModbusBytes(c)
  {
    hide DecodeRuleConfiguration, DecodeDstSettings, IsRuleFrame;
    if w[1] == 0x78 {
      DoubleWordOf(w[2], w[3], w[4], w[5]);
      hide DoubleWord, Le32;
      assert w == [w[0], w[1]] + [w[2], w[3], w[4], w[5]] + [w[6], w[7], w[8]];
    } else if w[1] == 0x79 {
      WordOf(w[2], w[3]); WordOf(w[4], w[5]);
      hide Word, Le16;
      assert w == [w[0], w[1]] + [w[2], w[3]] + [w[4], w[5]] + [w[6], w[7], w[8]];
    } else {
      if |w| >= 4 { WordOf(w[2], w[3]); }
      hide Word, Le16, DecodeRs485Settings, DecodeMasterSettings;
      assert |w| == 3 ==> w == [w[0], w[1], w[2]];
      assert |w| == 4 ==> w == [w[0], w[1]] + [w[2], w[3]];
      assert |w| == 5 ==> w == [w[0], w[1]] + [w[2], w[3]] + [w[4]];
    }
  }

  lemma DecodedIsEncoded(w: seq<byte>)
    requires OneCommand(w)
    ensures Acceptable(DecodeNext(w).command) && w == Encode(DecodeNext(w).command)
  {
    hide DecodeSystem, DecodeModbus, DecodeHistoryQuery, Acceptable, SystemBytes, ModbusBytes, QueryBytes;
    if w[0] == SYSTEM { SystemIsEncoded(w); } else if w[0] == MODBUS { ModbusIsEncoded(w); }
    else {
      QueryIsEncoded(w);
      QueryIsAcceptable(DecodeNext(w).command);
    }
  }

  lemma QueryIsAcceptable(c: Command)
    requires IsHistory(c)
    ensures Acceptable(c) && !IsSystem(c)
  {
  }

  // ---- the stream ----

  ghost predicate AllAcceptable(cs: seq<Command>) {
    forall k :: 0 <= k < |cs| ==> Acceptable(cs[k])
  }

  function EncodeAll(cs: seq<Command>): seq<byte>
    requires AllAcceptable(cs)
    decreases |cs|
  {
    if cs == [] then [] else Encode(cs[0]) + EncodeAll(cs[1..])
  }

  // Main result: a payload parses to a sequence of commands if and only if they are commands the
  // firmware takes and the payload is their layouts, one after the other.
  lemma {:induction false} ParsesExactlyEncodings(p: seq<byte>, cs: seq<Command>)
    ensures Parse(p) == Some(cs) <==> AllAcceptable(cs) && p == EncodeAll(cs)
    decreases |p|, |cs|
  {
    hide DecodeNext, Acceptable, Encode;
    if AllAcceptable(cs) && p == EncodeAll(cs) { EncodingsParse(cs); }
    if Parse(p) == Some(cs) && p != [] {
      var d := DecodeNext(p);
      DecodeIsLocal(p, p[..d.consumed]);
      var w, rest := p[..d.consumed], p[d.consumed..];
      assert w[..d.consumed] == w;
      DecodedIsEncoded(w);
      assert cs == [d.command] + cs[1..];
      ParsesExactlyEncodings(rest, cs[1..]);
    }
  }

  lemma {:induction false} EncodingsParse(cs: seq<Command>)
    requires AllAcceptable(cs)
    ensures Parse(EncodeAll(cs)) == Some(cs)
    decreases |cs|
  {
    hide DecodeNext, Acceptable, Encode;
    if cs == [] {
    } else {
      var w, rest := Encode(cs[0]), EncodeAll(cs[1..]);
      EncodedDecodes(cs[0]);
      DecodeIsLocal(w, w + rest);
      assert (w + rest)[..|w|] == w == w[..|w|] && (w + rest)[|w|..] == rest;
      EncodingsParse(cs[1..]);
      assert cs == [cs[0]] + cs[1..];
    }
  }

  // ---- replies ----

  // A settings reply is the header of the enquiry and the layout of the settings command.
  lemma ReplyIsLayout(kind: byte, serial: SerialSettings, master: MasterSettings)
    ensures kind == 0x01 && AcceptableMaster(master) ==>
              EnquiryReply(kind, serial, master) == Some([0xf8, 0x7a, 0x01, 0x00] + Encode(MasterConfig(master)))
    ensures kind == 0x00 && AcceptableSerial(serial) ==>
              EnquiryReply(kind, serial, master) == Some([0xf8, 0x7a, 0x00, 0x00] + Encode(Rs485Config(serial)))
    ensures kind > 0x01 ==> EnquiryReply(kind, serial, master) == None
  {
    WordIsToLe(master.executionIntervalMs); WordIsToLe(master.maxResponseTimeMs);
    DoubleWordIsToLe(serial.baudRate);
    hide ToLe, Word, DoubleWord;
    if kind == 0x01 && AcceptableMaster(master) {
      assert EnquiryReply(kind, serial, master).value == [0xf8, 0x7a, 0x01, 0x00] + Encode(MasterConfig(master));
    } else if kind == 0x00 && AcceptableSerial(serial) {
      assert EnquiryReply(kind, serial, master).value == [0xf8, 0x7a, 0x00, 0x00] + Encode(Rs485Config(serial));
    }
  }

  lemma WordIsToLe(v: u16)
    ensures ToLe(v, 2) == Word(v)
  {
    assert ToLe(v, 2) == [v % 256] + ToLe(v / 256, 1);
    assert ToLe(v / 256, 1) == [v / 256 % 256] + ToLe(v / 256 / 256, 0);
  }

  lemma DoubleWordIsToLe(v: u32)
    ensures ToLe(v, 4) == DoubleWord(v)
  {
    Pow256Values();
    DoubleWordReads(v);
    FromLeOf4(DoubleWord(v));
    ToLeFromLe(DoubleWord(v));
  }
}
