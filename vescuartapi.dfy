/** The VescUartApi driver object: the staging buffer and `buflast` that
    loopstep updates byte by byte, the telemetry the decoders overwrite, the
    GET_VALUES callback slot, and the packet encoders. `uart->write` appends
    to a ghost `output`; the bytes loopstep reads are passed in. Every method
    is proved to do what the functions of Framing, Telemetry and Codec say. */
module VescUart {
  import opened Bytes
  import opened Mem
  import opened Codec
  import opened Framing
  import opened Telemetry

  /** shiftBufferToNewStart: look for a start byte at indices 1 to
      `buflast - 1`; move the bytes from there to the front and lower
      `buflast` by its index, or report none and set `buflast` to -1. */
  method ShiftBufferToNewStart(buf: array<uint8>, buflast: int) returns (found: bool, newLast: int)
    requires 0 <= buflast < buf.Length
    modifies buf
    ensures Staging(buf[..], newLast) == Shift(Staging(old(buf[..]), buflast))
    ensures found <==> FirstStart(old(buf[..]), 1, buflast).Some?
  {
    ghost var cells := buf[..];
    var i := 1;
    while i < buflast
      invariant 1 <= i && (i <= buflast || i == 1)
      invariant forall j :: 1 <= j < i ==> !IsStart(cells[j])
      invariant buf[..] == cells
    {
      if buf[i] == 2 || buf[i] == 3 {
        ShiftFound(cells, buflast, i);
        newLast := buflast - i;
        MemMove(buf, i, newLast);
        return true, newLast;
      }
      i := i + 1;
    }
    ShiftNone(cells, buflast, i);
    return false, -1;
  }

  /** The first start byte after index 0 is the one the scan stops at. */
  lemma ShiftFound(cells: seq<uint8>, last: nat, i: nat)
    requires 1 <= i < last < |cells| && IsStart(cells[i])
    requires forall j :: 1 <= j < i ==> !IsStart(cells[j])
    ensures FirstStart(cells, 1, last) == Some(i)
    ensures Shift(Staging(cells, last)) == Staging(MoveDown(cells, i, last - i), last - i)
  {
  }

  /** A scan that reaches `buflast` has found no start byte. */
  lemma ShiftNone(cells: seq<uint8>, last: nat, i: nat)
    requires last < |cells| && 1 <= i && (i == last || i == 1) && last <= i
    requires forall j :: 1 <= j < i ==> !IsStart(cells[j])
    ensures FirstStart(cells, 1, last) == None
    ensures Shift(Staging(cells, last)) == Staging(cells, -1)
  {
  }

  /** rcvd_GET_VALUES, the temperatures and the motor current (bits 0 to 2): each field is read at `i`
      when its mask bit is set, and `i` moves past it. */
  method ReadTemperatures(data: seq<uint8>, mask: nat, ghost base: nat, v0: ValuesData, i0: nat)
    returns (v: ValuesData, i: nat)
    requires base + 64 <= |data| && i0 == base + Offset(mask, 0)
    ensures i == base + Offset(mask, 3)
    ensures v == v0.(tempFet := FieldOr(data, mask, base, 0, v0.tempFet), tempMotor := FieldOr(data, mask, base, 1, v0.tempMotor), avgMotorCurrent := FieldOr(data, mask, base, 2, v0.avgMotorCurrent))
  {
    v, i := v0, i0;
    if Bit(mask, 0) {
      v := v.(tempFet := Int16At(data, i));
      i := i + 2;
    }
    assert v.tempFet == FieldOr(data, mask, base, 0, v0.tempFet);
    assert i == base + Offset(mask, 1);
    if Bit(mask, 1) {
      v := v.(tempMotor := Int16At(data, i));
      i := i + 2;
    }
    assert v.tempMotor == FieldOr(data, mask, base, 1, v0.tempMotor);
    assert i == base + Offset(mask, 2);
    if Bit(mask, 2) {
      v := v.(avgMotorCurrent := Int32At(data, i));
      i := i + 4;
    }
    assert v.avgMotorCurrent == FieldOr(data, mask, base, 2, v0.avgMotorCurrent);
  }

  /** rcvd_GET_VALUES, the input, d-axis and q-axis currents (bits 3 to 5): each field is read at `i`
      when its mask bit is set, and `i` moves past it. */
  method ReadCurrents(data: seq<uint8>, mask: nat, ghost base: nat, v0: ValuesData, i0: nat)
    returns (v: ValuesData, i: nat)
    requires base + 64 <= |data| && i0 == base + Offset(mask, 3)
    ensures i == base + Offset(mask, 6)
    ensures v == v0.(avgInputCurrent := FieldOr(data, mask, base, 3, v0.avgInputCurrent))
  {
    v, i := v0, i0;
    if Bit(mask, 3) {
      v := v.(avgInputCurrent := Int32At(data, i));
      i := i + 4;
    }
    assert v.avgInputCurrent == FieldOr(data, mask, base, 3, v0.avgInputCurrent);
    assert i == base + Offset(mask, 4);
    if Bit(mask, 4) {
      // avg_id: read and dropped
      i := i + 4;
    }
    assert i == base + Offset(mask, 5);
    if Bit(mask, 5) {
      // avg_iq: read and dropped
      i := i + 4;
    }
  }

  /** rcvd_GET_VALUES, duty cycle, rpm and input voltage (bits 6 to 8): each field is read at `i`
      when its mask bit is set, and `i` moves past it. */
  method ReadDutyRpmVoltage(data: seq<uint8>, mask: nat, ghost base: nat, v0: ValuesData, i0: nat)
    returns (v: ValuesData, i: nat)
    requires base + 64 <= |data| && i0 == base + Offset(mask, 6)
    ensures i == base + Offset(mask, 9)
    ensures v == v0.(dutyCycleNow := FieldOr(data, mask, base, 6, v0.dutyCycleNow), rpm := FieldOr(data, mask, base, 7, v0.rpm), inputVoltage := FieldOr(data, mask, base, 8, v0.inputVoltage))
  {
    v, i := v0, i0;
    if Bit(mask, 6) {
      v := v.(dutyCycleNow := Int16At(data, i));
      i := i + 2;
    }
    assert v.dutyCycleNow == FieldOr(data, mask, base, 6, v0.dutyCycleNow);
    assert i == base + Offset(mask, 7);
    if Bit(mask, 7) {
      v := v.(rpm := Int32At(data, i));
      i := i + 4;
    }
    assert v.rpm == FieldOr(data, mask, base, 7, v0.rpm);
    assert i == base + Offset(mask, 8);
    if Bit(mask, 8) {
      v := v.(inputVoltage := Int16At(data, i));
      i := i + 2;
    }
    assert v.inputVoltage == FieldOr(data, mask, base, 8, v0.inputVoltage);
  }

  /** rcvd_GET_VALUES, the charge drawn and regenerated and the energy drawn (bits 9 to 11): each field is read at `i`
      when its mask bit is set, and `i` moves past it. */
  method ReadCharge(data: seq<uint8>, mask: nat, ghost base: nat, v0: ValuesData, i0: nat)
    returns (v: ValuesData, i: nat)
    requires base + 64 <= |data| && i0 == base + Offset(mask, 9)
    ensures i == base + Offset(mask, 12)
    ensures v == v0.(ampHours := FieldOr(data, mask, base, 9, v0.ampHours), ampHoursCharged := FieldOr(data, mask, base, 10, v0.ampHoursCharged))
  {
    v, i := v0, i0;
    if Bit(mask, 9) {
      v := v.(ampHours := Int32At(data, i));
      i := i + 4;
    }
    assert v.ampHours == FieldOr(data, mask, base, 9, v0.ampHours);
    assert i == base + Offset(mask, 10);
    if Bit(mask, 10) {
      v := v.(ampHoursCharged := Int32At(data, i));
      i := i + 4;
    }
    assert v.ampHoursCharged == FieldOr(data, mask, base, 10, v0.ampHoursCharged);
    assert i == base + Offset(mask, 11);
    if Bit(mask, 11) {
      // watt_hours: read and dropped
      i := i + 4;
    }
  }

  /** rcvd_GET_VALUES, the energy regenerated and the tachometers (bits 12 to 14): each field is read at `i`
      when its mask bit is set, and `i` moves past it. */
  method ReadTachometer(data: seq<uint8>, mask: nat, ghost base: nat, v0: ValuesData, i0: nat)
    returns (v: ValuesData, i: nat)
    requires base + 64 <= |data| && i0 == base + Offset(mask, 12)
    ensures i == base + Offset(mask, 15)
    ensures v == v0.(tachometerValue := FieldOr(data, mask, base, 13, v0.tachometerValue), tachometerAbsValue := FieldOr(data, mask, base, 14, v0.tachometerAbsValue))
  {
    v, i := v0, i0;
    if Bit(mask, 12) {
      // watt_hours_charged: read and dropped
      i := i + 4;
    }
    assert i == base + Offset(mask, 13);
    if Bit(mask, 13) {
      v := v.(tachometerValue := Int32At(data, i));
      i := i + 4;
    }
    assert v.tachometerValue == FieldOr(data, mask, base, 13, v0.tachometerValue);
    assert i == base + Offset(mask, 14);
    if Bit(mask, 14) {
      v := v.(tachometerAbsValue := Int32At(data, i));
      i := i + 4;
    }
    assert v.tachometerAbsValue == FieldOr(data, mask, base, 14, v0.tachometerAbsValue);
  }

  /** rcvd_GET_VALUES, fault, PID position, controller id and the MOSFET temperatures (bits 15 to 18): each field is read at `i`
      when its mask bit is set, and `i` moves past it. */
  method ReadFaultPositionId(data: seq<uint8>, mask: nat, ghost base: nat, v0: ValuesData, i0: nat)
    returns (v: ValuesData, i: nat)
    requires base + 64 <= |data| && i0 == base + Offset(mask, 15)
    ensures i == base + Offset(mask, 19)
    ensures v == v0.(fault := FieldOr(data, mask, base, 15, v0.fault), pidPos := FieldOr(data, mask, base, 16, v0.pidPos), controllerId := FieldOr(data, mask, base, 17, v0.controllerId))
  {
    v, i := v0, i0;
    if Bit(mask, 15) {
      v := v.(fault := Int8At(data, i));
      i := i + 1;
    }
    assert v.fault == FieldOr(data, mask, base, 15, v0.fault);
    assert i == base + Offset(mask, 16);
    if Bit(mask, 16) {
      v := v.(pidPos := Int32At(data, i));
      i := i + 4;
    }
    assert v.pidPos == FieldOr(data, mask, base, 16, v0.pidPos);
    assert i == base + Offset(mask, 17);
    if Bit(mask, 17) {
      v := v.(controllerId := Int8At(data, i));
      i := i + 1;
    }
    assert v.controllerId == FieldOr(data, mask, base, 17, v0.controllerId);
    assert i == base + Offset(mask, 18);
    if Bit(mask, 18) {
      // temp_mos1, temp_mos2 and temp_mos3: read and dropped
      i := i + 6;
    }
  }

  /** The three bytes after the payload: checksum high and low, end byte. */
  lemma Trailer(f1: seq<uint8>, end: nat, crc: nat, f: seq<uint8>)
    requires end + 3 <= |f1| && crc < 0x1_0000
    requires f == f1[end := crc / 0x100][end + 1 := crc % 0x100][end + 2 := 3]
    ensures f == CopyAt(f1, end, [crc / 0x100, crc % 0x100, 3])
  {
    StoreIsCopy(f1, end, crc / 0x100);
    StoreIsCopy(CopyAt(f1, end, [crc / 0x100]), end + 1, crc % 0x100);
    CopyAtAdjacent(f1, end, [crc / 0x100], [crc % 0x100]);
    StoreIsCopy(CopyAt(f1, end, [crc / 0x100, crc % 0x100]), end + 2, 3);
    CopyAtAdjacent(f1, end, [crc / 0x100, crc % 0x100], [3]);
  }

  /** A header copied so that it ends where the payload starts, at index 3,
      and the payload's checksum and the end byte copied after the payload,
      frame the payload in place as Encode does and leave the rest alone. */
  lemma FramedInPlace(f0: seq<uint8>, at: nat, cmdlen: nat, crc: nat, f1: seq<uint8>, f: seq<uint8>)
    requires cmdlen < 0x8000 && cmdlen + 6 <= |f0|
    requires at == if cmdlen <= 255 then 1 else 0
    requires crc == Crc16(f0[3..3 + cmdlen])
    requires f1 == CopyAt(f0, at, Header(cmdlen))
    requires f == CopyAt(f1, 3 + cmdlen, [crc / 0x100, crc % 0x100, END_MARKER])
    ensures var e := Encode(f0[3..3 + cmdlen]);
      && |e| == 3 - at + cmdlen + 3
      && f[at..at + |e|] == e && f[..at] == f0[..at] && f[at + |e|..] == f0[at + |e|..]
  {
    var p := f0[3..3 + cmdlen];
    var e := Encode(p);
    assert e == Header(cmdlen) + p + (CrcBytes(p) + [END_MARKER]);
    assert at + |Header(cmdlen)| == 3;
    assert CrcBytes(p) + [END_MARKER] == [crc / 0x100, crc % 0x100, END_MARKER];
    FramedAround(f0, at, cmdlen, [crc / 0x100, crc % 0x100, END_MARKER], f1, f);
  }

  /** FramedInPlace without Encode: the header, the payload left where it
      was, then the three bytes copied after it. */
  lemma FramedAround(f0: seq<uint8>, at: nat, cmdlen: nat, t: seq<uint8>, f1: seq<uint8>, f: seq<uint8>)
    requires cmdlen < 0x8000 && cmdlen + 6 <= |f0| && |t| == 3
    requires at == if cmdlen <= 255 then 1 else 0
    requires f1 == CopyAt(f0, at, Header(cmdlen))
    requires f == CopyAt(f1, 3 + cmdlen, t)
    ensures f[at..6 + cmdlen] == Header(cmdlen) + f0[3..3 + cmdlen] + t
    ensures f[..at] == f0[..at] && f[6 + cmdlen..] == f0[6 + cmdlen..]
  {
    assert at + |Header(cmdlen)| == 3;
    CopyAround(f0, at, Header(cmdlen), cmdlen, t);
  }

  /** sendCommand's frame: the short header at index 0, the payload copied
      after it, then the checksum and the end byte. */
  lemma FramedShort(cmd: seq<uint8>, crc: nat, f1: seq<uint8>, f2: seq<uint8>, f: seq<uint8>)
    requires |cmd| <= 251 && |f1| == 256 && crc == Crc16(cmd)
    requires f1[0] == SHORT_START && f1[1] == |cmd|
    requires f2 == CopyAt(f1, 2, cmd)
    requires f == CopyAt(f2, 2 + |cmd|, [crc / 0x100, crc % 0x100, END_MARKER])
    ensures |Encode(cmd)| == |cmd| + 5 && f[..|cmd| + 5] == Encode(cmd)
  {
    var t := [crc / 0x100, crc % 0x100, END_MARKER];
    assert t == CrcBytes(cmd) + [END_MARKER];
    assert Encode(cmd) == Header(|cmd|) + cmd + t;
    forall k | 0 <= k < |cmd| + 5
      ensures f[k] == (Header(|cmd|) + cmd + t)[k]
    {
      CopyAtAt(f2, 2 + |cmd|, t, k);
      CopyAtAt(f1, 2, cmd, k);
    }
  }

  /** The stores of sendCommandInplace's header copy Header(cmdlen) to
      index 1 for the short form and to index 0 for the long one. */
  lemma HeaderStores(f0: seq<uint8>, cmdlen: nat, f: seq<uint8>)
    requires cmdlen < 0x8000 && 3 <= |f0|
    requires f == if cmdlen <= 255 then f0[1 := SHORT_START][2 := cmdlen]
                  else f0[0 := LONG_START][1 := cmdlen / 0x100][2 := cmdlen % 0x100]
    ensures f == CopyAt(f0, if cmdlen <= 255 then 1 else 0, Header(cmdlen))
  {
    var at := if cmdlen <= 255 then 1 else 0;
    forall k | 0 <= k < |f0|
      ensures f[k] == CopyAt(f0, at, Header(cmdlen))[k]
    {
      CopyAtAt(f0, at, Header(cmdlen), k);
    }
  }

  /** The header of sendCommandInplace, written so that it ends at index 3;
      the source takes the short form up to 256 bytes (see Findings). */
  method PutHeader(frame: array<uint8>, cmdlen: int) returns (at: nat, len: nat)
    requires 0 <= cmdlen < 0x8000 && 3 <= frame.Length
    modifies frame
    ensures at == (if cmdlen <= 255 then 1 else 0) && len == |Header(cmdlen)| && at + len == 3
    ensures frame[..] == CopyAt(old(frame[..]), at, Header(cmdlen))
  {
    ghost var f0 := frame[..];
    if cmdlen <= 255 {
      at := 1;
      frame[at] := SHORT_START;
      frame[at + 1] := cmdlen;
      len := 2;
    } else {
      at := 0;
      frame[at] := LONG_START;
      frame[at + 1] := cmdlen / 0x100;
      frame[at + 2] := cmdlen % 0x100;
      len := 3;
    }
    HeaderStores(f0, cmdlen, frame[..]);
  }

  /** The checksum, high byte first, and the end byte, written from index. */
  method PutTrailer(frame: array<uint8>, index: nat, crc: nat)
    requires index + 3 <= frame.Length && crc < 0x1_0000
    modifies frame
    ensures frame[..] == CopyAt(old(frame[..]), index, [crc / 0x100, crc % 0x100, END_MARKER])
  {
    ghost var f1 := frame[..];
    frame[index] := crc / 0x100;
    frame[index + 1] := crc % 0x100;
    frame[index + 2] := END_MARKER;
    Trailer(f1, index, crc, frame[..]);
  }

  class VescUartApi {
    const buf: array<uint8>
    const bufsize: int
    var buflast: int
    /** Whether getValuesCB is set. */
    var getValuesCB: bool
    var valuesData: ValuesData
    var fwVersion: FwVersion
    /** How many times getValuesCB has been invoked. */
    ghost var callbacks: nat
    /** Everything written to the UART. */
    ghost var output: seq<uint8>

    ghost predicate Valid()
      reads this, buf
    {
      buf.Length == bufsize && Staging(buf[..], buflast).Valid()
    }

    ghost function Staged(): Staging
      reads this, buf
    {
      Staging(buf[..], buflast)
    }

    ghost function Observation(): Observed
      reads this
    {
      Observed(valuesData, fwVersion, getValuesCB, callbacks)
    }

    /** VescUartApi(buf, bufsize, uart): an empty staging buffer, no
        firmware version yet, no callback. values_data is left as it is. */
    constructor(storage: array<uint8>)
      requires MIN_STAGING <= storage.Length <= 0x7FFF
      ensures Valid() && buf == storage && bufsize == storage.Length
      ensures buflast == -1 && fwVersion == FwVersion(0, 0) && !getValuesCB
      ensures callbacks == 0 && output == []
    {
      buf, bufsize := storage, storage.Length;
      buflast := -1;
      getValuesCB := false;
      fwVersion := FwVersion(0, 0);
      callbacks := 0;
      output := [];
    }

    /** One pass of loopstep's read loop, for the byte `b` just read. */
    method Step(b: uint8)
      requires Valid()
      modifies this, buf
      ensures Valid() && output == old(output)
      ensures var o := Push(old(Staged()), b);
        && Staged() == o.staging
        && Observation() == Delivered(old(Observation()), o)
    {
      ghost var target := Push(Staged(), b);
      if buflast < 0 {
        if b != 2 && b != 3 {
          return;
        }
        buf[0] := b;
        buflast := 0;
      } else {
        buflast := buflast + 1;
        buf[buflast] := b;
      }
      assert Settle(Staged()) == target;
      // the `again:` label
      var again := true;
      while again
        invariant Valid() || (again && buf.Length == bufsize && Staged().Valid0())
        invariant again ==> Settle(Staged()) == target && Observation() == old(Observation())
        invariant !again ==> Staged() == target.staging && Observation() == Delivered(old(Observation()), target)
        invariant output == old(output)
        decreases again, buflast + 1
      {
        ghost var s := Staged();
        again := Again();
      }
    }

    /** The code at loopstep's `again:` label: judge the staged bytes, and
        either stop there (waiting, dropping, or after handing a payload to
        consumePacket) or resynchronise and ask to judge again. */
    method Again() returns (again: bool)
      requires buf.Length == bufsize && Staged().Valid0()
      modifies this, buf
      ensures output == old(output)
      ensures Staged() == Once(old(Staged())).outcome.staging && again == Once(old(Staged())).again
      ensures Observation() == Delivered(old(Observation()), Once(old(Staged())).outcome)
    {
      ghost var s := Staged();
      if buflast < MIN_RX_PACKET_SIZE {
        assert Judge(s) == Wait;
        return false;
      }
      var payloadsize: int, payloadstart: int, packetsize: int;
      if buf[0] == 2 {
        payloadsize := buf[1];
        payloadstart := 2;
        packetsize := payloadsize + 5;
        // the source has no such test for the short form (Finding 1)
        if packetsize > bufsize {
          assert Judge(s) == Drop;
          buflast := -1;
          return false;
        }
      } else if buf[0] == 3 {
        payloadsize := buf[1] as int * 0x100 + buf[2];
        payloadstart := 3;
        packetsize := payloadsize + 6;
        if packetsize > bufsize {
          assert Judge(s) == Drop;
          buflast := -1;
          return false;
        }
      } else {
        assert Judge(s) == Drop;
        buflast := -1;
        return false;
      }
      ghost var l := Layout(payloadstart, payloadsize);
      assert LayoutOf(s.cells) == Some(l) && l.PacketSize() == packetsize <= |s.cells|;
      if buflast + 1 < packetsize {
        assert Judge(s) == Wait;
        return false;
      }
      again := CheckPacket(payloadstart, payloadsize);
    }

    /** The rest of the `again:` block, once a whole packet of the declared
        size is staged: the end byte, the checksum, and the hand-over. */
    method CheckPacket(payloadstart: nat, payloadsize: nat) returns (again: bool)
      requires buf.Length == bufsize && Staged().Valid0()
      requires LayoutOf(buf[..]) == Some(Layout(payloadstart, payloadsize))
      requires MIN_RX_PACKET_SIZE <= buflast && payloadstart + payloadsize + 3 <= buflast + 1
      modifies this, buf
      ensures output == old(output)
      ensures Staged() == Once(old(Staged())).outcome.staging && again == Once(old(Staged())).again
      ensures Observation() == Delivered(old(Observation()), Once(old(Staged())).outcome)
    {
      ghost var s := Staged();
      ghost var l := Layout(payloadstart, payloadsize);
      var packetsize := payloadstart + payloadsize + 3;
      if buf[packetsize - 1] != 3 {
        assert Judge(s) == Resync;
        again, buflast := ShiftBufferToNewStart(buf, buflast);
        return;
      }
      if !CrcMatches(buf[..], packetsize, buf[payloadstart..payloadstart + payloadsize]) {
        assert Judge(s) == Resync;
        again, buflast := ShiftBufferToNewStart(buf, buflast);
        return;
      }
      assert Judge(s) == Accept(l);
      Deliver(payloadstart, payloadsize);
      return false;
    }

    /** A packet passed its checks: hand the payload to consumePacket, then
        keep what follows the packet, moved to the front with `buflast` 0. */
    method Deliver(payloadstart: nat, payloadsize: nat)
      requires buf.Length == bufsize && Staged().Valid0()
      requires Judge(Staged()) == Accept(Layout(payloadstart, payloadsize))
      modifies this, buf
      ensures output == old(output)
      ensures Staged() == Once(old(Staged())).outcome.staging
      ensures Observation() == Delivered(old(Observation()), Once(old(Staged())).outcome)
    {
      var packetsize := payloadstart + payloadsize + 3;
      ConsumePacket(buf[payloadstart..], payloadsize);
      if buflast >= packetsize {
        MemMove(buf, packetsize, buflast - packetsize + 1);
        buflast := 0;
      } else {
        buflast := -1;
      }
    }

    /** loopstep over the bytes the UART has available. */
    method Feed(bytes: seq<uint8>)
      requires Valid()
      modifies this, buf
      ensures Valid() && output == old(output)
      ensures var r := PushAll(old(Staged()), bytes);
        && Staged() == r.staging
        && Observation() == ConsumeAll(old(Observation()), r.delivered)
    {
      ghost var s0, t0 := Staged(), Observation();
      for i := 0 to |bytes|
        invariant Valid() && output == old(output)
        invariant Staged() == PushAll(s0, bytes[..i]).staging
        invariant Observation() == ConsumeAll(t0, PushAll(s0, bytes[..i]).delivered)
      {
        ghost var prev := PushAll(s0, bytes[..i]);
        Step(bytes[i]);
        assert bytes[..i + 1] == bytes[..i] + [bytes[i]];
        PushAllSnoc(s0, bytes[..i], bytes[i]);
        ConsumeAllSnoc(t0, prev.delivered, Push(prev.staging, bytes[i]));
      }
      assert bytes[..|bytes|] == bytes;
    }

    /** consumePacket: dispatch on the command id. */
    method ConsumePacket(packet: seq<uint8>, packetsize: nat)
      requires 69 <= |packet| && packetsize < 0x1_0000
      modifies this`valuesData, this`fwVersion, this`callbacks
      ensures Observation() == Consume(old(Observation()), Delivery(packet, packetsize))
    {
      var packetType := packet[0];
      var data := packet[1..];
      var datasize := (packetsize - 1) % 0x1_0000;
      if packetType == COMM_GET_VALUES || packetType == COMM_GET_VALUES_SELECTIVE {
        RcvdGetValues(data, datasize, packetType == COMM_GET_VALUES_SELECTIVE);
      } else if packetType == COMM_FW_VERSION {
        RcvdFwVersion(data, datasize);
      }
    }

    /** rcvd_FW_VERSION */
    method RcvdFwVersion(data: seq<uint8>, datasize: int)
      requires 2 <= |data|
      modifies this`fwVersion
      ensures fwVersion == if datasize < 2 then old(fwVersion) else FwVersion(data[0], data[1])
    {
      if datasize < 2 {
        return;
      }
      fwVersion := FwVersion(data[0], data[1]);
    }

    /** rcvd_GET_VALUES: a selective reply starts with the mask; a full one
        is decoded with every bit set once it has 54 bytes. The fields are
        read in bit order from position `i`, which moves past each field
        that is read. */
    method RcvdGetValues(data: seq<uint8>, datasize: int, selective: bool)
      requires 68 <= |data|
      modifies this`valuesData, this`callbacks
      ensures match ValuesUpdate(old(valuesData), data, datasize, selective)
        case None => valuesData == old(valuesData) && callbacks == old(callbacks)
        case Some(v) => valuesData == v && callbacks == if getValuesCB then old(callbacks) + 1 else old(callbacks)
    {
      var i := 0;
      var mask: nat := 0xFFFF_FFFF;
      if selective {
        mask := U32At(data, i);
        i := i + 4;
      } else if datasize < FULL_VALUES_MIN {
        return;
      }
      ghost var base := i;
      var v := valuesData;
      v, i := ReadTemperatures(data, mask, base, v, i);
      v, i := ReadCurrents(data, mask, base, v, i);
      v, i := ReadDutyRpmVoltage(data, mask, base, v, i);
      v, i := ReadCharge(data, mask, base, v, i);
      v, i := ReadTachometer(data, mask, base, v, i);
      v, i := ReadFaultPositionId(data, mask, base, v, i);
      valuesData := v;
      if getValuesCB {
        callbacks := callbacks + 1;
      }
    }

    /** setRxDataCB: only the GET_VALUES slot exists; `cb` says whether the
        pointer passed is non-null. */
    method SetRxDataCB(packetId: uint8, cb: bool)
      modifies this`getValuesCB
      ensures getValuesCB == if packetId == COMM_GET_VALUES then cb else old(getValuesCB)
    {
      if packetId == COMM_GET_VALUES {
        getValuesCB := cb;
      }
    }

    /** sendCommand: frame `cmd` in a local 256-byte array and write it. With
        at most 251 bytes the frame fits and takes the short form. */
    method SendCommand(cmd: seq<uint8>) returns (packetlen: int)
      requires |cmd| <= 251
      modifies this`output
      ensures output == old(output) + Encode(cmd) && packetlen == |Encode(cmd)|
    {
      var packet := new uint8[256];
      var crc := Crc16(cmd);
      packet[0] := 2;
      packet[1] := |cmd|;
      ghost var f1 := packet[..];
      packetlen := 2;
      MemCopy(packet, packetlen, cmd);
      ghost var f2 := packet[..];
      packetlen := packetlen + |cmd|;
      PutTrailer(packet, packetlen, crc);
      packetlen := packetlen + 3;
      FramedShort(cmd, crc, f1, f2, packet[..]);
      output := output + packet[..packetlen];
    }

    /** sendCommandInplace: the payload sits at `frame[3..]` with three free
        bytes on either side; the header goes just before it (from index 1
        for the short form, 0 for the long one) and the checksum and end
        byte just after it. */
    method SendCommandInplace(frame: array<uint8>, cmdlen: int) returns (packetlen: int)
      requires 0 <= cmdlen < 0x8000 && cmdlen + 6 <= frame.Length
      modifies frame, this`output
      ensures var e := Encode(old(frame[3..3 + cmdlen]));
        var at := if cmdlen <= 255 then 1 else 0;
        && packetlen == |e|
        && frame[at..at + packetlen] == e
        && frame[..at] == old(frame[..at])
        && frame[at + packetlen..] == old(frame[at + packetlen..])
        && output == old(output) + e
    {
      ghost var f0 := frame[..];
      var crc := Crc16(frame[3..3 + cmdlen]);
      var at;
      at, packetlen := PutHeader(frame, cmdlen);
      ghost var f1 := frame[..];
      packetlen := packetlen + cmdlen;
      PutTrailer(frame, at + packetlen, crc);
      packetlen := packetlen + 3;
      FramedInPlace(f0, at, cmdlen, crc, f1, frame[..]);
      output := output + frame[at..at + packetlen];
    }

    /** buffer_append_int32 */
    static method AppendInt32(frame: array<uint8>, v: int, index: nat) returns (next: nat)
      requires IsInt32(v) && index + 4 <= frame.Length
      modifies frame
      ensures frame[..] == CopyAt(old(frame[..]), index, Int32Bytes(v)) && next == index + 4
    {
      MemCopy(frame, index, Int32Bytes(v));
      next := index + 4;
    }

    /** askValues: a one-byte GET_VALUES command. */
    method AskValues()
      modifies this`output
      ensures output == old(output) + Encode([COMM_GET_VALUES])
    {
      var frame := new uint8[7];
      frame[3] := COMM_GET_VALUES;
      var _ := SendCommandInplace(frame, 1);
    }

    /** askFwVersion: a one-byte FW_VERSION command. */
    method AskFwVersion()
      modifies this`output
      ensures output == old(output) + Encode([COMM_FW_VERSION])
    {
      var frame := new uint8[7];
      frame[3] := COMM_FW_VERSION;
      var _ := SendCommandInplace(frame, 1);
    }

    /** The shared body of the set* builders: the id, then the argument. */
    method SendInt32Command(id: uint8, v: int)
      requires IsInt32(v)
      modifies this`output
      ensures output == old(output) + Encode(CommandPayload(id, v))
    {
      var index := 3;
      var frame := new uint8[11];
      frame[index] := id;
      index := index + 1;
      index := AppendInt32(frame, v, index);
      assert frame[3..8] == CommandPayload(id, v);
      var _ := SendCommandInplace(frame, 5);
    }

    /** setCurrent(miliamps) */
    method SetCurrent(miliamps: int)
      requires IsInt32(miliamps)
      modifies this`output
      ensures output == old(output) + Encode(CommandPayload(COMM_SET_CURRENT, miliamps))
    {
      SendInt32Command(COMM_SET_CURRENT, miliamps);
    }

    /** setCurrentBrake(miliamps) */
    method SetCurrentBrake(miliamps: int)
      requires IsInt32(miliamps)
      modifies this`output
      ensures output == old(output) + Encode(CommandPayload(COMM_SET_CURRENT_BRAKE, miliamps))
    {
      SendInt32Command(COMM_SET_CURRENT_BRAKE, miliamps);
    }

    /** setDuty(duty): the duty cycle scaled to -100000..100000. */
    method SetDuty(duty: int)
      requires IsInt32(duty)
      modifies this`output
      ensures output == old(output) + Encode(CommandPayload(COMM_SET_DUTY, duty))
    {
      SendInt32Command(COMM_SET_DUTY, duty);
    }

    /** setRPM(rpm) */
    method SetRPM(rpm: int)
      requires IsInt32(rpm)
      modifies this`output
      ensures output == old(output) + Encode(CommandPayload(COMM_SET_RPM, rpm))
    {
      SendInt32Command(COMM_SET_RPM, rpm);
    }
  }
}
