/** What consumePacket does with a payload: the controller's telemetry
    (GET_VALUES, in full or selective form) and firmware version replies,
    as pure functions of the driver's observable state. The floating-point
    fields of the source are kept as the raw integers the decoder divides,
    with the divisor noted beside each. */
module Telemetry {
  import opened Bytes
  import opened Codec
  import opened Framing

  /** ValuesData. */
  datatype ValuesData = ValuesData(
    tempFet: int,             // int16, divided by 10
    tempMotor: int,           // int16, divided by 10
    avgMotorCurrent: int,     // int32, divided by 100
    avgInputCurrent: int,     // int32, divided by 100
    dutyCycleNow: int,        // int16, divided by 1000
    rpm: int,                 // int32, divided by 1
    inputVoltage: int,        // int16, divided by 10
    ampHours: int,            // int32, divided by 10000
    ampHoursCharged: int,     // int32, divided by 10000
    tachometerValue: int,     // int32
    tachometerAbsValue: int,  // int32
    fault: int,               // int8
    pidPos: int,              // int32, divided by 1000000
    controllerId: int)        // int8

  /** fw_version[0] and fw_version[1]. */
  datatype FwVersion = FwVersion(major: uint8, minor: uint8)

  /** The state consumePacket can change, with the number of times the
      GET_VALUES callback has been invoked. */
  datatype Observed = Observed(values: ValuesData, fw: FwVersion, valuesCallback: bool, callbacks: nat)

  /** The number of bytes each GET_VALUES field takes, by mask bit: int16
      fields 2, int32 fields 4, int8 fields 1, and bit 18 three int16s. The
      helpers in the firmware's buffer.h are not part of this model; these
      are their widths. */
  function Width(k: nat): (r: nat)
    requires k < 19
    ensures r in {1, 2, 4, 6}
  {
    if k == 15 || k == 17 then 1
    else if k == 0 || k == 1 || k == 6 || k == 8 then 2
    else if k == 18 then 6
    else 4
  }

  /** Where field `k` starts when every field is present. */
  function Start(k: nat): (r: nat)
    requires k <= 19
    ensures r <= 64
  {
    match k
    case 0 => 0
    case 1 => 2
    case 2 => 4
    case 3 => 8
    case 4 => 12
    case 5 => 16
    case 6 => 20
    case 7 => 22
    case 8 => 26
    case 9 => 28
    case 10 => 32
    case 11 => 36
    case 12 => 40
    case 13 => 44
    case 14 => 48
    case 15 => 52
    case 16 => 53
    case 17 => 57
    case 18 => 58
    case _ => 64
  }

  /** The fields lie back to back, the last ending at byte 64. */
  lemma StartStep(k: nat)
    requires k < 19
    ensures Start(k) + Width(k) == Start(k + 1)
  {
  }

  /** `mask & (1 << k) != 0`, on the mask's value. */
  predicate Bit(mask: nat, k: nat) {
    if k == 0 then mask % 2 == 1 else Bit(mask / 2, k - 1)
  }

  /** Where field `k` starts, relative to the first field: the widths of the
      earlier fields whose bit is set. Whatever the mask, no field starts
      later than with every bit set, so every field ends within 64 bytes. */
  function Offset(mask: nat, k: nat): (r: nat)
    requires k <= 19
    ensures r <= Start(k)
    ensures k < 19 ==> r + Width(k) <= 64
  {
    if k == 0 then 0
    else
      StartStep(k - 1);
      var r := Offset(mask, k - 1) + (if Bit(mask, k - 1) then Width(k - 1) else 0);
      if k < 19 then StartStep(k); r else r
  }

  /** The reader for a field of `w` bytes: buffer_get_int8, _int16 or
      _int32 (the float readers divide what the integer readers return). */
  function ReadAt(data: seq<uint8>, at: nat, w: nat): (r: int)
    requires w in {1, 2, 4} && at + w <= |data|
  {
    if w == 1 then Int8At(data, at) else if w == 2 then Int16At(data, at) else Int32At(data, at)
  }

  /** Field `k` after decoding: read from `base + Offset(mask, k)` when bit
      `k` is set, `kept` otherwise. */
  function FieldOr(data: seq<uint8>, mask: nat, base: nat, k: nat, kept: int): (r: int)
    requires k < 18 && Width(k) != 6 && base + 64 <= |data|
  {
    if Bit(mask, k) then ReadAt(data, base + Offset(mask, k), Width(k)) else kept
  }

  /** rcvd_GET_VALUES's effect on values_data, field by field: field `k` is
      overwritten, from `base + Offset(mask, k)`, exactly when bit `k` is
      set; bits 4, 5, 11, 12 and 18 only move the read position. */
  function DecodeValues(v: ValuesData, data: seq<uint8>, mask: nat, base: nat): (r: ValuesData)
    requires base + 64 <= |data|
  {
    ValuesData(
      FieldOr(data, mask, base, 0, v.tempFet),
      FieldOr(data, mask, base, 1, v.tempMotor),
      FieldOr(data, mask, base, 2, v.avgMotorCurrent),
      FieldOr(data, mask, base, 3, v.avgInputCurrent),
      FieldOr(data, mask, base, 6, v.dutyCycleNow),
      FieldOr(data, mask, base, 7, v.rpm),
      FieldOr(data, mask, base, 8, v.inputVoltage),
      FieldOr(data, mask, base, 9, v.ampHours),
      FieldOr(data, mask, base, 10, v.ampHoursCharged),
      FieldOr(data, mask, base, 13, v.tachometerValue),
      FieldOr(data, mask, base, 14, v.tachometerAbsValue),
      FieldOr(data, mask, base, 15, v.fault),
      FieldOr(data, mask, base, 16, v.pidPos),
      FieldOr(data, mask, base, 17, v.controllerId))
  }

  /** The smallest full GET_VALUES reply rcvd_GET_VALUES accepts. */
  const FULL_VALUES_MIN: int := 54

  /** rcvd_GET_VALUES: a selective reply starts with a big-endian mask and
      has no length check; a full reply is decoded with every bit set when
      it has at least 54 bytes, and otherwise ignored (None). */
  function ValuesUpdate(v: ValuesData, data: seq<uint8>, datasize: int, selective: bool): (r: Option<ValuesData>)
    requires 68 <= |data|
    ensures r.None? <==> !selective && datasize < FULL_VALUES_MIN
  {
    if selective then Some(DecodeValues(v, data, U32At(data, 0), 4))
    else if datasize < FULL_VALUES_MIN then None
    else Some(DecodeValues(v, data, 0xFFFF_FFFF, 0))
  }

  /** consumePacket: the first byte is the command id and the rest is handed
      on with a `uint16_t` size one smaller, so an empty payload is handed
      on as 65535 bytes. Ids other than GET_VALUES, GET_VALUES_SELECTIVE and
      FW_VERSION change nothing. */
  function Consume(t: Observed, d: Delivery): (r: Observed)
    requires 69 <= |d.packet|
    ensures r.valuesCallback == t.valuesCallback
    ensures r.callbacks == t.callbacks || (r.callbacks == t.callbacks + 1 && t.valuesCallback)
    ensures d.packet[0] !in {COMM_GET_VALUES, COMM_GET_VALUES_SELECTIVE, COMM_FW_VERSION} ==> r == t
    ensures d.packet[0] != COMM_FW_VERSION ==> r.fw == t.fw
    ensures d.packet[0] == COMM_FW_VERSION ==> r.values == t.values && r.callbacks == t.callbacks
    ensures d.packet[0] == COMM_FW_VERSION ==>
      r.fw == if (d.size - 1) % 0x1_0000 < 2 then t.fw else FwVersion(d.packet[1], d.packet[2])
    ensures d.packet[0] in {COMM_GET_VALUES, COMM_GET_VALUES_SELECTIVE} ==>
      match ValuesUpdate(t.values, d.packet[1..], (d.size - 1) % 0x1_0000, d.packet[0] == COMM_GET_VALUES_SELECTIVE)
      case None => r == t
      case Some(v) => r == t.(values := v, callbacks := if t.valuesCallback then t.callbacks + 1 else t.callbacks)
  {
    var id, data, datasize := d.packet[0], d.packet[1..], (d.size - 1) % 0x1_0000;
    if id == COMM_GET_VALUES || id == COMM_GET_VALUES_SELECTIVE then
      match ValuesUpdate(t.values, data, datasize, id == COMM_GET_VALUES_SELECTIVE)
      case None => t
      case Some(v) => t.(values := v, callbacks := if t.valuesCallback then t.callbacks + 1 else t.callbacks)
    else if id == COMM_FW_VERSION then
      if datasize < 2 then t else t.(fw := FwVersion(data[0], data[1]))
    else t
  }

  /** The state after a settled byte: consumed if a payload was handed over. */
  function Delivered(t: Observed, o: Outcome): (r: Observed)
    requires o.delivered.Some? ==> 69 <= |o.delivered.value.packet|
  {
    if o.delivered.Some? then Consume(t, o.delivered.value) else t
  }

  /** Consume over a sequence of payloads, in order. */
  function ConsumeAll(t: Observed, ds: seq<Delivery>): (r: Observed)
    requires forall k :: 0 <= k < |ds| ==> 69 <= |ds[k].packet|
    ensures r.valuesCallback == t.valuesCallback && t.callbacks <= r.callbacks
    decreases |ds|
  {
    if ds == [] then t else Consume(ConsumeAll(t, ds[..|ds| - 1]), ds[|ds| - 1])
  }

  /** Consuming what one more byte handed over. */
  lemma ConsumeAllSnoc(t: Observed, ds: seq<Delivery>, o: Outcome)
    requires forall k :: 0 <= k < |ds| ==> 69 <= |ds[k].packet|
    requires o.delivered.Some? ==> 69 <= |o.delivered.value.packet|
    ensures ConsumeAll(t, ds + Deliveries(o)) == Delivered(ConsumeAll(t, ds), o)
  {
    if o.delivered.Some? {
      assert (ds + Deliveries(o))[..|ds|] == ds;
    } else {
      assert ds + Deliveries(o) == ds;
    }
  }

  // ---------------------------------------------------------------------------
  // Properties of the decoders
  // ---------------------------------------------------------------------------

  /** A full reply spans 64 bytes, ten more than the length check demands:
      a 54-byte reply is decoded from the 10 bytes that follow it. */
  lemma FullReplySpan()
    ensures Offset(0xFFFF_FFFF, 18) + Width(18) == 64
    ensures Offset(0xFFFF_FFFF, 18) + Width(18) - FULL_VALUES_MIN == 10
  {
    FullOffsets(18);
    StartStep(18);
  }

  /** With every bit set, the fields lie back to back from the first. */
  lemma {:induction false} FullOffsets(k: nat)
    requires k <= 19
    ensures Offset(0xFFFF_FFFF, k) == Start(k)
  {
    if k > 0 {
      FullOffsets(k - 1);
      StartStep(k - 1);
      OnesBit(32, k - 1);
      OnesThirtyTwo();
    }
  }

  /** The mask of `n` one bits. */
  function Ones(n: nat): (r: nat) {
    if n == 0 then 0 else 2 * Ones(n - 1) + 1
  }

  lemma OnesThirtyTwo()
    ensures Ones(32) == 0xFFFF_FFFF
  {
    assert Ones(8) == 0xFF;
    assert Ones(16) == 0xFFFF;
    assert Ones(24) == 0xFF_FFFF;
  }

  /** Every bit below `n` of `Ones(n)` is set. */
  lemma {:induction false} OnesBit(n: nat, k: nat)
    requires k < n
    ensures Bit(Ones(n), k)
  {
    if k > 0 {
      OnesBit(n - 1, k - 1);
      assert Ones(n) / 2 == Ones(n - 1);
    }
  }

  /** Whatever the mask, a field that is read ends before every later field
      starts: no byte is read twice. */
  lemma {:induction false} OffsetsDisjoint(mask: nat, k: nat, j: nat)
    requires k < j <= 19 && Bit(mask, k)
    ensures Offset(mask, k) + Width(k) <= Offset(mask, j)
  {
    if j > k + 1 {
      OffsetsDisjoint(mask, k, j - 1);
    }
  }

  /** A selective reply with mask bits 2 and 7 (average motor current and
      rpm) reads the first from just after the mask and the second right
      after it, and leaves every other field as it was. */
  lemma SelectiveMotorCurrentAndRpm(v: ValuesData, data: seq<uint8>)
    requires 68 <= |data| && data[..4] == [0, 0, 0, 0x84]
    ensures ValuesUpdate(v, data, 0, true)
         == Some(v.(avgMotorCurrent := Int32At(data, 4), rpm := Int32At(data, 8)))
  {
    assert data[0] == 0 && data[1] == 0 && data[2] == 0 && data[3] == 0x84 by {
      assert data[..4][0] == data[0] && data[..4][3] == data[3];
    }
    assert U32At(data, 0) == 0x84;
    DecodeMotorCurrentAndRpm(v, data, 4);
  }

  lemma DecodeMotorCurrentAndRpm(v: ValuesData, data: seq<uint8>, base: nat)
    requires base + 64 <= |data|
    ensures DecodeValues(v, data, 0x84, base)
         == v.(avgMotorCurrent := Int32At(data, base), rpm := Int32At(data, base + 4))
  {
    assert Offset(0x84, 2) == 0 && Offset(0x84, 7) == 4;
  }

  /** A mask with no bit set leaves values_data as it was. */
  lemma EmptyMaskKeepsValues(v: ValuesData, data: seq<uint8>, base: nat)
    requires base + 64 <= |data|
    ensures DecodeValues(v, data, 0, base) == v
  {
  }

  /** An empty payload that passed the framer's checks is read as a
      FW_VERSION reply: its command id is the checksum's high byte, 0, and
      the 65535-byte data starts with the checksum's low byte, 0, and the end
      byte, 3. */
  lemma EmptyPayloadIsFwVersion(t: Observed, d: Delivery)
    requires 69 <= |d.packet| && d.size == 0 && Checked(d)
    ensures Consume(t, d) == t.(fw := FwVersion(0, 3))
  {
    assert d.packet[..0] == [];
    assert Crc16([]) == 0;
    assert d.packet[0] as int * 0x100 + d.packet[1] == 0;
  }
}
