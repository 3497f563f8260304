/** pluggit.js: one poll of the ventilation unit. Nine register blocks are
    requested in a fixed order, then the sample is stamped; each reply is
    packed into a little-endian byte buffer and decoded into named fields of
    the sample; the first failed block ends the poll with an error and no
    sample. */
module Pluggit {
  import opened Wrappers
  import opened Buffer
  import opened Decimal

  /** Operating states, register 40473 (prmCurrentBLState). */
  const STATES: map<nat, string> := map[
    0 := "Standby", 1 := "Manual", 2 := "Demand", 3 := "Week program", 4 := "Servo-flow",
    5 := "Away", 6 := "Summer", 7 := "DI Override", 8 := "Hygrostat override", 9 := "Fireplace",
    10 := "Installer", 11 := "Fail Safe 1", 12 := "Fail Safe 2", 13 := "Fail Off",
    14 := "Defrost Off", 15 := "Defrost", 16 := "Night"]

  /** Last active alarm, register 40517 (prmLastActiveAlarm). */
  const ALARMS: map<nat, string> := map[
    0 := "None", 1 := "Exhaust FAN Alarm", 2 := "Supply FAN Alarm", 3 := "Bypass Alarm",
    4 := "T1 Alarm", 5 := "T2 Alarm", 6 := "T3 Alarm", 7 := "T4 Alarm", 8 := "T5 Alarm",
    9 := "RH Alarm", 10 := "Outdoor13 Alarm", 11 := "Supply5 Alarm", 12 := "Fire Alarm",
    13 := "Communication Alarm", 14 := "FireTermostat Alarm", 15 := "VOC Alarm"]

  /** Bypass position, register 40199 (prmRamIdxBypassActualState). */
  const BYPASS_STATES: map<nat, string> := map[
    0x0000 := "closed", 0x0001 := "in process", 0x0020 := "closing", 0x0040 := "opening",
    0x00FF := "opened"]

  /** `TABLE[code] || fallback`: the entry for the code, unless it is missing
      or empty, in which case the fallback. */
  function Label(table: map<nat, string>, code: nat, fallback: string): (text: string)
    ensures code in table && table[code] != "" ==> text == table[code]
    ensures code !in table || table[code] == "" ==> text == fallback
    ensures text == fallback || text in table.Values
  {
    if code in table && table[code] != "" then table[code] else fallback
  }

  function BypassLabel(code: nat): (text: string)
    ensures text == "unknown" || text in BYPASS_STATES.Values
  {
    Label(BYPASS_STATES, code, "unknown")
  }

  function StateLabel(code: nat): (text: string)
    ensures text == "unknown" || text in STATES.Values
  {
    Label(STATES, code, "unknown")
  }

  /** The alarm fallback is spelt "unkown" in the source, and so it is here. */
  function AlarmLabel(code: nat): (text: string)
    ensures text == "unkown" || text in ALARMS.Values
  {
    Label(ALARMS, code, "unkown")
  }

  /** The bypass label is the table's entry for a mapped code and "unknown"
      exactly for the unmapped ones. */
  lemma BypassLabelCases(code: nat)
    ensures code in BYPASS_STATES ==> BypassLabel(code) == BYPASS_STATES[code]
    ensures BypassLabel(code) == "unknown" <==> code !in BYPASS_STATES
  {
  }

  /** The state label is the table's entry for a mapped code and "unknown"
      exactly for the unmapped ones. */
  lemma StateLabelCases(code: nat)
    ensures code in STATES ==> StateLabel(code) == STATES[code]
    ensures StateLabel(code) == "unknown" <==> code !in STATES
  {
  }

  /** The alarm label is the table's entry for a mapped code and "unkown"
      exactly for the unmapped ones. */
  lemma AlarmLabelCases(code: nat)
    ensures code in ALARMS ==> AlarmLabel(code) == ALARMS[code]
    ensures AlarmLabel(code) == "unkown" <==> code !in ALARMS
  {
  }

  /** One decoded reading. Temperatures `t1`..`t5` are in hundredths of a
      degree and fan speeds in tenths of an rpm (the source rounds the device's
      floats with `toFixed(2)` and `toFixed(1)`); `name` is the raw bytes of the
      name field; `timestamp` is the number the 14-digit timestamp string
      denotes. */
  datatype Sample = Sample(
    serial: int, name: seq<Byte>, version: string,
    fan1: int, fan2: int,
    t1: int, t2: int, t3: int, t4: int, t5: int,
    humidity: nat, bypass: nat, bypassState: string,
    speed: nat, state: nat, stateText: string,
    alarm: nat, alarmState: string,
    filterReset: nat, workTime: nat, timestamp: nat)

  /** The empty `dp` the poll starts from; every field is overwritten by a successful poll. */
  const Blank := Sample(0, [], "", 0, 0, 0, 0, 0, 0, 0, 0, 0, "", 0, 0, "", 0, "", 0, 0, 0)

  /** `readFloatLE` on four bytes followed by `toFixed(digits)`, as an integer
      count of 10^-digits units. IEEE-754 decoding is not modelled: a poll is
      parameterised by this function. */
  type FloatFixed = (seq<Byte>, nat) -> int

  /** pluggit.js:149 as written: `UInt32LE(4) + (UInt32LE(8) << 32)`. JavaScript
      takes a shift count modulo 32, so `<< 32` shifts by nothing and only
      reinterprets the high word as a signed 32-bit value. */
  function SerialAsWritten(buf: seq<Byte>): (serial: int)
    requires |buf| >= 12
    ensures -0x8000_0000 <= serial < 0x1_7FFF_FFFF
    ensures UInt32LE(buf, 8) < 0x8000_0000 ==> serial == UInt32LE(buf, 4) + UInt32LE(buf, 8)
    ensures UInt32LE(buf, 8) >= 0x8000_0000 ==> serial == UInt32LE(buf, 4) + UInt32LE(buf, 8) - 0x1_0000_0000
  {
    UInt32LE(buf, 4) + ToInt32(UInt32LE(buf, 8))
  }

  /** The same serial for two different serial-number words: registers
      (1, 0, 0, 0) and (0, 0, 1, 0) both give 1, and the second is not the
      low word plus the high word shifted up by 32 bits. */
  lemma SerialAsWrittenCollides()
    ensures var a := [0, 0, 0, 0, 1, 0, 0, 0, 0, 0, 0, 0];
            var b := [0, 0, 0, 0, 0, 0, 0, 0, 1, 0, 0, 0];
            UInt32LE(a, 4) != UInt32LE(b, 4) && SerialAsWritten(a) == SerialAsWritten(b) == 1
            && SerialAsWritten(b) != UInt32LE(b, 4) + 0x1_0000_0000 * UInt32LE(b, 8)
  {
  }

  /** The serial the four serial-number registers evidently encode: the low
      32-bit word plus the high word times 2^32. */
  function Serial(buf: seq<Byte>): (serial: nat)
    requires |buf| >= 12
    ensures serial < 0x1_0000_0000_0000_0000
  {
    UInt32LE(buf, 4) + 0x1_0000_0000 * UInt32LE(buf, 8)
  }

  /** The corrected serial determines both words, so distinct serial-number
      registers give distinct serials. */
  lemma SerialWords(buf: seq<Byte>)
    requires |buf| >= 12
    ensures Serial(buf) % 0x1_0000_0000 == UInt32LE(buf, 4)
    ensures Serial(buf) / 0x1_0000_0000 == UInt32LE(buf, 8)
  {
  }

  /** When the high word is zero, the code as written and the corrected serial
      agree, and both are `UInt32LE(4)`. */
  lemma SerialsAgreeOnZeroHighWord(buf: seq<Byte>)
    requires |buf| >= 12 && UInt32LE(buf, 8) == 0
    ensures SerialAsWritten(buf) == Serial(buf) == UInt32LE(buf, 4)
  {
  }

  /** `replace(/\0/g, '')`: every NUL byte removed, wherever it stands. */
  function StripNul(s: seq<Byte>): (r: seq<Byte>)
    ensures |r| == |s| - multiset(s)[0]
    decreases |s|
  {
    if s == [] then []
    else
      assert s == [s[0]] + s[1..];
      (if s[0] == 0 then [] else [s[0]]) + StripNul(s[1..])
  }

  /** Stripping leaves no NUL byte, keeps every other byte as often as it
      occurs, and changes nothing in a string without NUL bytes. */
  lemma {:induction false} StripNulRemovesOnlyNul(s: seq<Byte>)
    ensures forall i :: 0 <= i < |StripNul(s)| ==> StripNul(s)[i] != 0
    ensures forall b: Byte | b != 0 :: multiset(StripNul(s))[b] == multiset(s)[b]
    ensures (forall i :: 0 <= i < |s| ==> s[i] != 0) ==> StripNul(s) == s
    decreases |s|
  {
    if s != [] {
      StripNulRemovesOnlyNul(s[1..]);
      assert s == [s[0]] + s[1..];
    }
  }

  /** NUL bytes are dropped piecewise: stripping a concatenation strips each part. */
  lemma {:induction false} StripNulConcat(a: seq<Byte>, b: seq<Byte>)
    ensures StripNul(a + b) == StripNul(a) + StripNul(b)
    decreases |a|
  {
    if a != [] {
      assert (a + b)[1..] == a[1..] + b;
      StripNulConcat(a[1..], b);
    } else {
      assert a + b == b;
    }
  }

  /** The fewest bytes each block's decoder reads: a shorter reply makes a
      `Buffer` read throw a RangeError, which fails the poll like a read error. */
  const MIN_BYTES: seq<nat> := [46, 8, 20, 8, 2, 2, 2, 2, 4]

  /** Block 0, registers 40003-40025: serial number, name and firmware version.
      The serial is computed as the code computes it (`SerialAsWritten`). */
  function DecodeIdentity(buf: seq<Byte>, dp: Sample): (r: Sample)
    requires |buf| >= 46
    ensures r == dp.(serial := r.serial, name := r.name, version := r.version)
    ensures |r.name| <= 20
  {
    dp.(serial := SerialAsWritten(buf), name := StripNul(buf[12..32]), version := Show(buf[45]) + "." + Show(buf[44]))
  }

  /** Block 1, registers 40101-40104: the two fan speeds, to one decimal. */
  function DecodeFans(buf: seq<Byte>, dp: Sample, fixed: FloatFixed): (r: Sample)
    requires |buf| >= 8
    ensures r == dp.(fan1 := r.fan1, fan2 := r.fan2)
  {
    dp.(fan1 := fixed(buf[0..4], 1), fan2 := fixed(buf[4..8], 1))
  }

  /** Block 2, registers 40133-40152: the five temperatures, to two decimals. */
  function DecodeTemperatures(buf: seq<Byte>, dp: Sample, fixed: FloatFixed): (r: Sample)
    requires |buf| >= 20
    ensures r == dp.(t1 := r.t1, t2 := r.t2, t3 := r.t3, t4 := r.t4, t5 := r.t5)
  {
    dp.(t1 := fixed(buf[0..4], 2), t2 := fixed(buf[4..8], 2), t3 := fixed(buf[8..12], 2),
        t4 := fixed(buf[12..16], 2), t5 := fixed(buf[16..20], 2))
  }

  /** Block 3, registers 40197-40200: humidity and the bypass state with its label. */
  function DecodeClimate(buf: seq<Byte>, dp: Sample): (r: Sample)
    requires |buf| >= 8
    ensures r == dp.(humidity := r.humidity, bypass := r.bypass, bypassState := r.bypassState)
    ensures r.humidity < 0x1_0000_0000 && r.bypass < 0x1_0000_0000
  {
    var bypass := UInt32LE(buf, 4);
    dp.(humidity := UInt32LE(buf, 0), bypass := bypass, bypassState := BypassLabel(bypass))
  }

  /** Blocks 4 to 8: speed level, operating state, last alarm, filter days, work hours. */
  function DecodeCounter(index: nat, buf: seq<Byte>, dp: Sample): (r: Sample)
    requires 4 <= index < 9 && |buf| >= MIN_BYTES[index]
    ensures index == 4 ==> r == dp.(speed := r.speed) && r.speed < 0x1_0000
    ensures index == 5 ==> r == dp.(state := r.state, stateText := r.stateText) && r.state < 0x1_0000
    ensures index == 6 ==> r == dp.(alarm := r.alarm, alarmState := r.alarmState) && r.alarm < 0x1_0000
    ensures index == 7 ==> r == dp.(filterReset := r.filterReset) && r.filterReset < 0x1_0000
    ensures index == 8 ==> r == dp.(workTime := r.workTime) && r.workTime < 0x1_0000_0000
  {
    if index == 4 then dp.(speed := UInt16LE(buf, 0))
    else if index == 5 then
      var state := UInt16LE(buf, 0);
      dp.(state := state, stateText := StateLabel(state))
    else if index == 6 then
      var alarm := UInt16LE(buf, 0);
      dp.(alarm := alarm, alarmState := AlarmLabel(alarm))
    else if index == 7 then dp.(filterReset := UInt16LE(buf, 0))
    else dp.(workTime := UInt32LE(buf, 0))
  }

  /** The fields block `index` sets on `dp` from its buffer (pluggit.js:147-210),
      or None when the buffer is too short for the reads the block makes. */
  function DecodeBlock(index: nat, buf: seq<Byte>, dp: Sample, fixed: FloatFixed): (r: Option<Sample>)
    requires index < 9
    ensures r.Some? <==> |buf| >= MIN_BYTES[index]
  {
    if |buf| < MIN_BYTES[index] then None
    else if index == 0 then Some(DecodeIdentity(buf, dp))
    else if index == 1 then Some(DecodeFans(buf, dp, fixed))
    else if index == 2 then Some(DecodeTemperatures(buf, dp, fixed))
    else if index == 3 then Some(DecodeClimate(buf, dp))
    else Some(DecodeCounter(index, buf, dp))
  }

  /** A register block: start address and number of registers. */
  datatype Block = Block(start: nat, len: nat)

  /** The blocks requested, in order; a tenth step reads nothing and stamps the time. */
  const BLOCKS: seq<Block> := [
    Block(2, 23), Block(100, 4), Block(132, 20), Block(196, 4), Block(324, 1),
    Block(472, 1), Block(516, 1), Block(554, 1), Block(624, 2)]

  /** What the device answers to a read of holding registers. */
  datatype Reply = Registers(values: seq<Register>) | Failed

  /** The device, as the reply it gives to a request for `len` registers at `start`. */
  type Device = (nat, nat) -> Reply

  datatype PollError = ReadError(block: Block) | RangeError(block: Block)

  /** The outcome of a poll and the blocks requested on the way, in order. */
  datatype Poll = Poll(result: Result<Sample, PollError>, requested: seq<Block>)

  /** What `readBlock` resolves with (the packed buffer) or rejects with. */
  function BlockBuffer(device: Device, block: Block): (r: Result<seq<Byte>, PollError>)
    ensures r.Failure? <==> device(block.start, block.len).Failed?
    ensures r.Failure? ==> r.error == ReadError(block)
    ensures r.Success? ==> r.value == Pack(device(block.start, block.len).values)
  {
    match device(block.start, block.len)
    case Failed => Failure(ReadError(block))
    case Registers(values) => Success(Pack(values))
  }

  /** Block `index` of the table is answered, with enough bytes for its decoder. */
  predicate Readable(device: Device, index: nat)
    requires index < 9
  {
    device(BLOCKS[index].start, BLOCKS[index].len).Registers?
    && 2 * |device(BLOCKS[index].start, BLOCKS[index].len).values| >= MIN_BYTES[index]
  }

  /** The decoder column of the block table: block index, buffer and sample so
      far to the updated sample, or None when the buffer is too short. */
  type Decoder = (nat, seq<Byte>, Sample) -> Option<Sample>

  /** A decoder fails exactly on buffers shorter than its block needs. */
  ghost predicate SizeChecked(decode: Decoder) {
    forall index: nat, buf, dp :: index < 9 ==> (decode(index, buf, dp).Some? <==> |buf| >= MIN_BYTES[index])
  }

  /** The decoders of pluggit.js, as one table column. */
  function Decoding(fixed: FloatFixed): Decoder {
    (index: nat, buf: seq<Byte>, dp: Sample) => if index < 9 then DecodeBlock(index, buf, dp, fixed) else None
  }

  lemma DecodingIsSizeChecked(fixed: FloatFixed)
    ensures SizeChecked(Decoding(fixed))
  {
  }

  /** `requestBlock(index, dp)`: decode block `index` and go on with the next,
      until the tenth step stamps the sample with the value of `Timestamp.now()`
      (here `stamp`) or a block fails. */
  function Walk(device: Device, decode: Decoder, stamp: nat, index: nat, dp: Sample): (p: Poll)
    requires index <= 9
    ensures |p.requested| <= 9 - index
    ensures p.result.Success? ==> p.result.value.timestamp == stamp
    decreases 9 - index
  {
    if index == 9 then Poll(Success(dp.(timestamp := stamp)), [])
    else
      var block := BLOCKS[index];
      match BlockBuffer(device, block)
      case Failure(e) => Poll(Failure(e), [block])
      case Success(buf) =>
        match decode(index, buf, dp)
        case None => Poll(Failure(RangeError(block)), [block])
        case Some(next) =>
          var rest := Walk(device, decode, stamp, index + 1, next);
          Poll(rest.result, [block] + rest.requested)
  }

  /** The sample after a readable block. */
  function After(device: Device, decode: Decoder, index: nat, dp: Sample): Sample
    requires index < 9 && SizeChecked(decode) && Readable(device, index)
  {
    decode(index, BlockBuffer(device, BLOCKS[index]).value, dp).value
  }

  /** One step of the walk over a readable block: its request comes first,
      then those of the rest of the walk from the decoded sample. */
  lemma WalkStep(device: Device, decode: Decoder, stamp: nat, index: nat, dp: Sample)
    requires index < 9 && SizeChecked(decode) && Readable(device, index)
    ensures var rest := Walk(device, decode, stamp, index + 1, After(device, decode, index, dp));
            Walk(device, decode, stamp, index, dp) == Poll(rest.result, [BLOCKS[index]] + rest.requested)
  {
  }

  /** A block that is not readable ends the walk there, with an error naming it. */
  lemma WalkStops(device: Device, decode: Decoder, stamp: nat, index: nat, dp: Sample)
    requires index < 9 && SizeChecked(decode) && !Readable(device, index)
    ensures Walk(device, decode, stamp, index, dp).requested == [BLOCKS[index]]
    ensures Walk(device, decode, stamp, index, dp).result == Failure(
              if device(BLOCKS[index].start, BLOCKS[index].len).Failed? then ReadError(BLOCKS[index])
              else RangeError(BLOCKS[index]))
  {
  }

  /** A stretch of the block table is its first block followed by the rest. */
  lemma BlocksFrom(index: nat, n: nat)
    requires index + 1 + n <= 9
    ensures BLOCKS[index..index + 1 + n] == [BLOCKS[index]] + BLOCKS[index + 1..index + 1 + n]
  {
  }

  /** Blocks are requested strictly in table order, each at most once, and
      every block requested before the last one was readable. */
  lemma {:induction false} WalkInOrder(device: Device, decode: Decoder, stamp: nat, index: nat, dp: Sample)
    requires index <= 9 && SizeChecked(decode)
    ensures var p := Walk(device, decode, stamp, index, dp);
      && |p.requested| <= 9 - index
      && p.requested == BLOCKS[index..index + |p.requested|]
      && (forall k :: index <= k < index + |p.requested| - 1 ==> Readable(device, k))
    decreases 9 - index
  {
    if index < 9 {
      if Readable(device, index) {
        WalkStep(device, decode, stamp, index, dp);
        var next := After(device, decode, index, dp);
        WalkInOrder(device, decode, stamp, index + 1, next);
        BlocksFrom(index, |Walk(device, decode, stamp, index + 1, next).requested|);
      } else {
        WalkStops(device, decode, stamp, index, dp);
      }
    }
  }

  /** The walk succeeds exactly when every remaining block is readable, and
      then every remaining block was requested. */
  lemma {:induction false} WalkSucceeds(device: Device, decode: Decoder, stamp: nat, index: nat, dp: Sample)
    requires index <= 9 && SizeChecked(decode)
    ensures var p := Walk(device, decode, stamp, index, dp);
      && (p.result.Success? <==> forall k :: index <= k < 9 ==> Readable(device, k))
      && (p.result.Success? ==> |p.requested| == 9 - index)
    decreases 9 - index
  {
    if index < 9 {
      if Readable(device, index) {
        WalkStep(device, decode, stamp, index, dp);
        WalkSucceeds(device, decode, stamp, index + 1, After(device, decode, index, dp));
      } else {
        WalkStops(device, decode, stamp, index, dp);
      }
    }
  }

  /** When the walk fails, the last block requested is not readable and the
      error names it. */
  lemma {:induction false} WalkFails(device: Device, decode: Decoder, stamp: nat, index: nat, dp: Sample)
    requires index <= 9 && SizeChecked(decode)
    ensures var p := Walk(device, decode, stamp, index, dp);
      p.result.Failure? ==>
        && |p.requested| >= 1 && index + |p.requested| - 1 < 9
        && !Readable(device, index + |p.requested| - 1)
        && p.result.error.block == BLOCKS[index + |p.requested| - 1]
    decreases 9 - index
  {
    if index < 9 {
      if Readable(device, index) {
        WalkStep(device, decode, stamp, index, dp);
        WalkFails(device, decode, stamp, index + 1, After(device, decode, index, dp));
      } else {
        WalkStops(device, decode, stamp, index, dp);
      }
    }
  }

  /** The fields block `index` writes agree in two samples. */
  predicate SameFields(index: nat, a: Sample, b: Sample) {
    if index == 0 then a.serial == b.serial && a.name == b.name && a.version == b.version
    else if index == 1 then a.fan1 == b.fan1 && a.fan2 == b.fan2
    else if index == 2 then a.t1 == b.t1 && a.t2 == b.t2 && a.t3 == b.t3 && a.t4 == b.t4 && a.t5 == b.t5
    else if index == 3 then a.humidity == b.humidity && a.bypass == b.bypass && a.bypassState == b.bypassState
    else if index == 4 then a.speed == b.speed
    else if index == 5 then a.state == b.state && a.stateText == b.stateText
    else if index == 6 then a.alarm == b.alarm && a.alarmState == b.alarmState
    else if index == 7 then a.filterReset == b.filterReset
    else a.workTime == b.workTime
  }

  lemma SameFieldsTransitive(index: nat, a: Sample, b: Sample, c: Sample)
    requires SameFields(index, a, b) && SameFields(index, b, c)
    ensures SameFields(index, a, c)
  {
  }

  /** The registers block `index` answered with, packed. */
  function Packed(device: Device, index: nat): (buf: seq<Byte>)
    requires index < 9 && Readable(device, index)
    ensures |buf| >= MIN_BYTES[index]
  {
    Pack(device(BLOCKS[index].start, BLOCKS[index].len).values)
  }

  /** What block `index` alone decodes from its reply. */
  function Decoded(device: Device, decode: Decoder, index: nat): Sample
    requires index < 9 && SizeChecked(decode) && Readable(device, index)
  {
    decode(index, Packed(device, index), Blank).value
  }

  /** A block's decoder writes only that block's fields, and what it writes
      depends on the buffer alone, not on the fields decoded before. */
  lemma DecodeBlockLocal(index: nat, buf: seq<Byte>, dp: Sample, fixed: FloatFixed)
    requires index < 9 && |buf| >= MIN_BYTES[index]
    ensures var r := DecodeBlock(index, buf, dp, fixed).value;
      && r.timestamp == dp.timestamp
      && (forall j :: 0 <= j < 9 && j != index ==> SameFields(j, r, dp))
      && SameFields(index, r, DecodeBlock(index, buf, Blank, fixed).value)
  {
  }

  /** One decoding step as `DecodeBlockLocal` describes it. */
  predicate LocalAt(index: nat, r: Option<Sample>, alone: Option<Sample>, dp: Sample) {
    r.Some? ==>
      && alone.Some? && r.value.timestamp == dp.timestamp
      && (forall j :: 0 <= j < 9 && j != index ==> SameFields(j, r.value, dp))
      && SameFields(index, r.value, alone.value)
  }

  /** Every step of a decoder is local. */
  ghost predicate Local(decode: Decoder) {
    forall index: nat, buf, dp :: index < 9 ==> LocalAt(index, decode(index, buf, dp), decode(index, buf, Blank), dp)
  }

  lemma DecodingIsLocal(fixed: FloatFixed)
    ensures Local(Decoding(fixed))
  {
    forall index: nat, buf, dp | index < 9
      ensures LocalAt(index, Decoding(fixed)(index, buf, dp), Decoding(fixed)(index, buf, Blank), dp)
    {
      if |buf| >= MIN_BYTES[index] {
        DecodeBlockLocal(index, buf, dp, fixed);
      }
    }
  }

  /** Fields of the blocks before `index` that one step left alone and the
      rest of the walk kept are those the walk started with. */
  lemma KeepsEarlier(index: nat, s: Sample, next: Sample, dp: Sample)
    requires index < 9
    requires forall j :: 0 <= j < index + 1 ==> SameFields(j, s, next)
    requires forall j :: 0 <= j < 9 && j != index ==> SameFields(j, next, dp)
    ensures forall j :: 0 <= j < index ==> SameFields(j, s, dp)
  {
    forall j | 0 <= j < index ensures SameFields(j, s, dp) {
      SameFieldsTransitive(j, s, next, dp);
    }
  }

  /** A successful walk from block `index` keeps the fields of the blocks
      before it, stamps the sample, and leaves each later block's fields as
      that block's reply decodes them. */
  lemma {:induction false} WalkFields(device: Device, decode: Decoder, stamp: nat, index: nat, dp: Sample)
    requires index <= 9 && SizeChecked(decode) && Local(decode)
    requires Walk(device, decode, stamp, index, dp).result.Success?
    ensures var s := Walk(device, decode, stamp, index, dp).result.value;
      && s.timestamp == stamp
      && (forall j :: 0 <= j < index ==> SameFields(j, s, dp))
      && (forall j :: index <= j < 9 ==> Readable(device, j) && SameFields(j, s, Decoded(device, decode, j)))
    decreases 9 - index
  {
    if index < 9 {
      if !Readable(device, index) {
        WalkStops(device, decode, stamp, index, dp);
        assert false;
      }
      var next := After(device, decode, index, dp);
      assert BlockBuffer(device, BLOCKS[index]).value == Packed(device, index);
      assert LocalAt(index, decode(index, Packed(device, index), dp), decode(index, Packed(device, index), Blank), dp);
      WalkStep(device, decode, stamp, index, dp);
      WalkFields(device, decode, stamp, index + 1, next);
      var s := Walk(device, decode, stamp, index, dp).result.value;
      KeepsEarlier(index, s, next, dp);
      SameFieldsTransitive(index, s, next, Decoded(device, decode, index));
    }
  }

  /** The registers block `index` answered with. */
  function Registers(device: Device, index: nat): (values: seq<Register>)
    requires index < 9 && Readable(device, index)
    ensures 2 * |values| >= MIN_BYTES[index]
  {
    device(BLOCKS[index].start, BLOCKS[index].len).values
  }

  /** Block 0 on its own: serial, name and version from the packed registers. */
  lemma IdentityDecoded(device: Device, fixed: FloatFixed)
    requires Readable(device, 0)
    ensures var s, buf := Decoded(device, Decoding(fixed), 0), Pack(Registers(device, 0));
      && s.serial == SerialAsWritten(buf) && s.name == StripNul(buf[12..32])
      && s.version == Show(buf[45]) + "." + Show(buf[44])
    ensures var s, r := Decoded(device, Decoding(fixed), 0), Registers(device, 0);
      s.serial == r[2] as int + 0x1_0000 * r[3] as int + ToInt32(r[4] as int + 0x1_0000 * r[5] as int)
  {
    DecodingIsSizeChecked(fixed);
    DecodingApplies(fixed, 0, Packed(device, 0), Blank);
    PackedPair(Registers(device, 0), 2);
    PackedPair(Registers(device, 0), 4);
  }

  /** Blocks 1 and 2 on their own: the fan speeds are the floats at byte
      offsets 0 and 4 to one decimal, the temperatures the floats at offsets
      0, 4, 8, 12 and 16 to two decimals. */
  lemma FloatsDecoded(device: Device, fixed: FloatFixed)
    requires Readable(device, 1) && Readable(device, 2)
    ensures var s, buf := Decoded(device, Decoding(fixed), 1), Packed(device, 1);
      s.fan1 == fixed(buf[0..4], 1) && s.fan2 == fixed(buf[4..8], 1)
    ensures var s, buf := Decoded(device, Decoding(fixed), 2), Packed(device, 2);
      && s.t1 == fixed(buf[0..4], 2) && s.t2 == fixed(buf[4..8], 2)
      && s.t3 == fixed(buf[8..12], 2) && s.t4 == fixed(buf[12..16], 2)
      && s.t5 == fixed(buf[16..20], 2)
  {
    DecodingIsSizeChecked(fixed);
    DecodingApplies(fixed, 1, Packed(device, 1), Blank);
    DecodingApplies(fixed, 2, Packed(device, 2), Blank);
  }

  /** Block 3 on its own: humidity and bypass as 32-bit little-endian words. */
  lemma ClimateDecoded(device: Device, fixed: FloatFixed)
    requires Readable(device, 3)
    ensures var s, r := Decoded(device, Decoding(fixed), 3), Registers(device, 3);
      && s.humidity == r[0] as int + 0x1_0000 * r[1] as int
      && s.bypass == r[2] as int + 0x1_0000 * r[3] as int
      && s.bypassState == BypassLabel(s.bypass)
  {
    DecodingIsSizeChecked(fixed);
    DecodingApplies(fixed, 3, Packed(device, 3), Blank);
    PackedPair(Registers(device, 3), 0);
    PackedPair(Registers(device, 3), 2);
  }

  /** Blocks 4 to 7 on their own: one register each, with the labels. */
  lemma CountersDecoded(device: Device, fixed: FloatFixed)
    requires forall j :: 4 <= j < 8 ==> Readable(device, j)
    ensures Decoded(device, Decoding(fixed), 4).speed == Registers(device, 4)[0] as int
    ensures var s := Decoded(device, Decoding(fixed), 5);
      s.state == Registers(device, 5)[0] as int && s.stateText == StateLabel(s.state)
    ensures var s := Decoded(device, Decoding(fixed), 6);
      s.alarm == Registers(device, 6)[0] as int && s.alarmState == AlarmLabel(s.alarm)
    ensures Decoded(device, Decoding(fixed), 7).filterReset == Registers(device, 7)[0] as int
  {
    DecodingIsSizeChecked(fixed);
    for j := 4 to 8
      invariant forall k :: 4 <= k < j ==> Decoding(fixed)(k, Packed(device, k), Blank) == DecodeBlock(k, Packed(device, k), Blank, fixed)
    {
      DecodingApplies(fixed, j, Packed(device, j), Blank);
    }
    PackedRegister(Registers(device, 4), 0);
    PackedRegister(Registers(device, 5), 0);
    PackedRegister(Registers(device, 6), 0);
    PackedRegister(Registers(device, 7), 0);
  }

  /** Block 8 on its own: the work time as a 32-bit little-endian word. */
  lemma WorkTimeDecoded(device: Device, fixed: FloatFixed)
    requires Readable(device, 8)
    ensures Decoded(device, Decoding(fixed), 8).workTime == Registers(device, 8)[0] as int + 0x1_0000 * Registers(device, 8)[1] as int
  {
    DecodingIsSizeChecked(fixed);
    DecodingApplies(fixed, 8, Packed(device, 8), Blank);
    PackedPair(Registers(device, 8), 0);
  }

  /** A successful poll carries every block's fields as that block's reply
      decodes them on its own, and the timestamp. */
  lemma PollDecoded(device: Device, fixed: FloatFixed, stamp: nat)
    requires Walk(device, Decoding(fixed), stamp, 0, Blank).result.Success?
    ensures forall j :: 0 <= j < 9 ==> Readable(device, j)
    ensures var s := Walk(device, Decoding(fixed), stamp, 0, Blank).result.value;
      && s.timestamp == stamp
      && forall j :: 0 <= j < 9 ==> SameFields(j, s, Decoded(device, Decoding(fixed), j))
  {
    DecodingIsSizeChecked(fixed);
    DecodingIsLocal(fixed);
    WalkFields(device, Decoding(fixed), stamp, 0, Blank);
  }

  /** The identity a successful poll reports: serial, name and version from
      the packed registers of block 0. */
  lemma PollIdentity(device: Device, fixed: FloatFixed, stamp: nat)
    requires Walk(device, Decoding(fixed), stamp, 0, Blank).result.Success?
    ensures Readable(device, 0)
    ensures var s, buf := Walk(device, Decoding(fixed), stamp, 0, Blank).result.value, Pack(Registers(device, 0));
      && s.serial == SerialAsWritten(buf) && s.name == StripNul(buf[12..32])
      && s.version == Show(buf[45]) + "." + Show(buf[44])
  {
    PollDecoded(device, fixed, stamp);
    IdentityDecoded(device, fixed);
    var s := Walk(device, Decoding(fixed), stamp, 0, Blank).result.value;
    assert SameFields(0, s, Decoded(device, Decoding(fixed), 0));
  }

  /** The integer fields a successful poll reports, in terms of the
      registers the device answered, with the labels of the coded ones. */
  lemma PollIntegers(device: Device, fixed: FloatFixed, stamp: nat)
    requires Walk(device, Decoding(fixed), stamp, 0, Blank).result.Success?
    ensures Readable(device, 3) && Readable(device, 4) && Readable(device, 5)
    ensures Readable(device, 6) && Readable(device, 7) && Readable(device, 8)
    ensures var s, r := Walk(device, Decoding(fixed), stamp, 0, Blank).result.value, Registers(device, 3);
      && s.humidity == r[0] as int + 0x1_0000 * r[1] as int
      && s.bypass == r[2] as int + 0x1_0000 * r[3] as int
      && s.bypassState == BypassLabel(s.bypass)
    ensures var s := Walk(device, Decoding(fixed), stamp, 0, Blank).result.value;
      && s.speed == Registers(device, 4)[0] as int
      && s.state == Registers(device, 5)[0] as int && s.stateText == StateLabel(s.state)
      && s.alarm == Registers(device, 6)[0] as int && s.alarmState == AlarmLabel(s.alarm)
      && s.filterReset == Registers(device, 7)[0] as int
      && s.workTime == Registers(device, 8)[0] as int + 0x1_0000 * Registers(device, 8)[1] as int
  {
    PollDecoded(device, fixed, stamp);
    ClimateDecoded(device, fixed);
    CountersDecoded(device, fixed);
    WorkTimeDecoded(device, fixed);
    var s := Walk(device, Decoding(fixed), stamp, 0, Blank).result.value;
    assert SameFields(3, s, Decoded(device, Decoding(fixed), 3));
    assert SameFields(4, s, Decoded(device, Decoding(fixed), 4));
    assert SameFields(5, s, Decoded(device, Decoding(fixed), 5));
    assert SameFields(6, s, Decoded(device, Decoding(fixed), 6));
    assert SameFields(7, s, Decoded(device, Decoding(fixed), 7));
    assert SameFields(8, s, Decoded(device, Decoding(fixed), 8));
  }

  /** The fan speeds and temperatures a successful poll reports, as the
      floats of blocks 1 and 2 at their byte offsets, rounded to one and two
      decimals. */
  lemma PollFloats(device: Device, fixed: FloatFixed, stamp: nat)
    requires Walk(device, Decoding(fixed), stamp, 0, Blank).result.Success?
    ensures Readable(device, 1) && Readable(device, 2)
    ensures var s, buf := Walk(device, Decoding(fixed), stamp, 0, Blank).result.value, Packed(device, 1);
      s.fan1 == fixed(buf[0..4], 1) && s.fan2 == fixed(buf[4..8], 1)
    ensures var s, buf := Walk(device, Decoding(fixed), stamp, 0, Blank).result.value, Packed(device, 2);
      && s.t1 == fixed(buf[0..4], 2) && s.t2 == fixed(buf[4..8], 2)
      && s.t3 == fixed(buf[8..12], 2) && s.t4 == fixed(buf[12..16], 2)
      && s.t5 == fixed(buf[16..20], 2)
  {
    PollDecoded(device, fixed, stamp);
    FloatsDecoded(device, fixed);
    var s := Walk(device, Decoding(fixed), stamp, 0, Blank).result.value;
    assert SameFields(1, s, Decoded(device, Decoding(fixed), 1));
    assert SameFields(2, s, Decoded(device, Decoding(fixed), 2));
  }

  /** `readBlock(start, len)`: request the registers, then write each one with
      `writeUInt16LE` at twice its index into a zero-filled buffer. */
  method ReadBlock(device: Device, block: Block) returns (r: Result<seq<Byte>, PollError>)
    ensures r == BlockBuffer(device, block)
  {
    var reply := device(block.start, block.len);
    if reply.Failed? {
      return Failure(ReadError(block));
    }
    var response := reply.values;
    var buf := new Byte[2 * |response|];
    for i := 0 to |response|
      invariant forall k :: 0 <= k < 2 * i ==> buf[k] == Pack(response)[k]
    {
      buf[2 * i] := response[i] % 0x100;
      buf[2 * i + 1] := response[i] / 0x100;
    }
    assert buf[..] == Pack(response);
    return Success(buf[..]);
  }

  /** The walk of the poll, split after the blocks in `requested`. */
  function Split(device: Device, fixed: FloatFixed, stamp: nat, index: nat, dp: Sample, requested: seq<Block>): Poll
    requires index <= 9
  {
    var rest := Walk(device, Decoding(fixed), stamp, index, dp);
    Poll(rest.result, requested + rest.requested)
  }

  /** A block the device does not answer ends the split walk with its read error. */
  lemma StepFailsRead(device: Device, fixed: FloatFixed, stamp: nat, index: nat, dp: Sample, requested: seq<Block>)
    requires index < 9 && BlockBuffer(device, BLOCKS[index]).Failure?
    ensures Split(device, fixed, stamp, index, dp, requested)
            == Poll(Failure(BlockBuffer(device, BLOCKS[index]).error), requested + [BLOCKS[index]])
  {
  }

  /** A reply too short for its decoder ends the split walk with a range error. */
  lemma StepFailsRange(device: Device, fixed: FloatFixed, stamp: nat, index: nat, dp: Sample, requested: seq<Block>)
    requires index < 9 && BlockBuffer(device, BLOCKS[index]).Success?
    requires DecodeBlock(index, BlockBuffer(device, BLOCKS[index]).value, dp, fixed).None?
    ensures Split(device, fixed, stamp, index, dp, requested)
            == Poll(Failure(RangeError(BLOCKS[index])), requested + [BLOCKS[index]])
  {
    DecodingApplies(fixed, index, BlockBuffer(device, BLOCKS[index]).value, dp);
  }

  /** A decoded block moves the split point past it. */
  lemma StepResumes(device: Device, fixed: FloatFixed, stamp: nat, index: nat, dp: Sample, requested: seq<Block>)
    requires index < 9 && BlockBuffer(device, BLOCKS[index]).Success?
    requires DecodeBlock(index, BlockBuffer(device, BLOCKS[index]).value, dp, fixed).Some?
    ensures Split(device, fixed, stamp, index, dp, requested)
            == Split(device, fixed, stamp, index + 1, DecodeBlock(index, BlockBuffer(device, BLOCKS[index]).value, dp, fixed).value,
                     requested + [BLOCKS[index]])
  {
    DecodingApplies(fixed, index, BlockBuffer(device, BLOCKS[index]).value, dp);
    var rest := Walk(device, Decoding(fixed), stamp, index + 1,
                     DecodeBlock(index, BlockBuffer(device, BLOCKS[index]).value, dp, fixed).value);
    assert requested + ([BLOCKS[index]] + rest.requested) == (requested + [BLOCKS[index]]) + rest.requested;
  }

  /** A decoder table entry applied is the decoder of that block. */
  lemma DecodingApplies(fixed: FloatFixed, index: nat, buf: seq<Byte>, dp: Sample)
    requires index < 9
    ensures Decoding(fixed)(index, buf, dp) == DecodeBlock(index, buf, dp, fixed)
  {
  }

  /** `start` and the recursion of `requestBlock`, as a loop over the block
      table: the sample is built block by block, and the first failing block
      ends the poll with no further request. `stamp` is the value of
      `Timestamp.now()` read when the last block is decoded. */
  method RequestBlocks(device: Device, fixed: FloatFixed, stamp: nat)
      returns (result: Result<Sample, PollError>, requested: seq<Block>)
    ensures Poll(result, requested) == Walk(device, Decoding(fixed), stamp, 0, Blank)
  {
    var dp := Blank;
    requested := [];
    var index := 0;
    ghost var whole := Split(device, fixed, stamp, index, dp, requested);
    assert whole == Walk(device, Decoding(fixed), stamp, 0, Blank);
    while index < 9
      invariant 0 <= index <= 9
      invariant whole == Split(device, fixed, stamp, index, dp, requested)
    {
      var block := BLOCKS[index];
      var buf := ReadBlock(device, block);
      if buf.Failure? {
        StepFailsRead(device, fixed, stamp, index, dp, requested);
        return Failure(buf.error), requested + [block];
      }
      var next := DecodeBlock(index, buf.value, dp, fixed);
      if next.None? {
        StepFailsRange(device, fixed, stamp, index, dp, requested);
        return Failure(RangeError(block)), requested + [block];
      }
      StepResumes(device, fixed, stamp, index, dp, requested);
      requested := requested + [block];
      dp := next.value;
      index := index + 1;
    }
    assert requested + [] == requested;
    result := Success(dp.(timestamp := stamp));
  }
}
