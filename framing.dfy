/** The receive side of VescUartApi (loopstep and its helpers), as pure
    functions over the staging buffer: what one received byte does to the
    buffer `buf` and to `buflast`, and which payloads it hands to
    consumePacket. The class in VescUart runs the same steps in place and is
    proved equal to these functions. */
module Framing {
  import opened Bytes
  import opened Mem
  import opened Codec

  /** A decode is tried only once `buflast` reaches this value, that is with
      at least seven bytes staged, although the smallest packet has six. */
  const MIN_RX_PACKET_SIZE: int := 6

  /** The decoders may read up to 68 bytes after the command id, which sits
      at most at index 3: a staging buffer shorter than this would let them
      read past its end. */
  const MIN_STAGING: int := 72

  /** The staging buffer: the whole array and `buflast`, the index of the
      last valid byte, or -1 while looking for a packet start. */
  datatype Staging = Staging(cells: seq<uint8>, last: int)
  {
    /** Between two received bytes there is room for one more. */
    predicate Valid() {
      MIN_STAGING <= |cells| <= 0x7FFF && -1 <= last <= |cells| - 2
    }

    /** Just after a byte has been appended the buffer may be full. */
    predicate Valid0() {
      MIN_STAGING <= |cells| <= 0x7FFF && -1 <= last <= |cells| - 1
    }
  }

  /** What consumePacket is given: the memory from the payload's first byte
      on (the decoders may read past the payload) and the payload size. */
  datatype Delivery = Delivery(packet: seq<uint8>, size: nat)

  /** A packet's end byte and checksum bytes are right for its payload. */
  predicate Framed(cells: seq<uint8>, l: Layout) {
    && 3 <= l.PacketSize() <= |cells|
    && cells[l.PacketSize() - 1] == END_MARKER
    && CrcMatches(cells, l.PacketSize(), cells[l.payloadStart..l.payloadStart + l.payloadSize])
  }

  /** What consumePacket may rely on: the bytes after the payload are its
      checksum, high byte first, and the end byte. */
  predicate Checked(d: Delivery) {
    && d.size + 3 <= |d.packet|
    && d.packet[d.size + 2] == END_MARKER
    && CrcMatches(d.packet, d.size + 3, d.packet[..d.size])
  }

  datatype Verdict = Wait | Drop | Resync | Accept(layout: Layout)

  /** The test at the `again:` label of loopstep, with the room check that
      the source applies to the long form applied to both forms (see
      Findings; JudgeAsWritten is the test as written). */
  function Judge(s: Staging): (v: Verdict)
    requires 7 <= |s.cells| && -1 <= s.last < |s.cells|
    ensures v == Wait ==> s.last <= |s.cells| - 2
    ensures v != Wait ==> MIN_RX_PACKET_SIZE <= s.last
    ensures v == Drop ==> !IsStart(s.cells[0]) || LayoutOf(s.cells).value.PacketSize() > |s.cells|
    ensures v.Accept? ==>
      && LayoutOf(s.cells) == Some(v.layout)
      && v.layout.PacketSize() <= s.last + 1
      && Framed(s.cells, v.layout)
    ensures v == Resync ==>
      && LayoutOf(s.cells).Some?
      && LayoutOf(s.cells).value.PacketSize() <= s.last + 1
      && !Framed(s.cells, LayoutOf(s.cells).value)
  {
    if s.last < MIN_RX_PACKET_SIZE then Wait
    else match LayoutOf(s.cells)
      case None => Drop
      case Some(l) =>
        if l.PacketSize() > |s.cells| then Drop
        else if s.last + 1 < l.PacketSize() then Wait
        else if !Framed(s.cells, l) then Resync
        else Accept(l)
  }

  /** The first packet start in `cells[lo..hi]`. */
  function FirstStart(cells: seq<uint8>, lo: nat, hi: nat): (r: Option<nat>)
    requires hi <= |cells|
    ensures r.Some? ==> lo <= r.value < hi && IsStart(cells[r.value])
    ensures r.Some? ==> forall j :: lo <= j < r.value ==> !IsStart(cells[j])
    ensures r.None? ==> forall j :: lo <= j < hi ==> !IsStart(cells[j])
    decreases hi - lo
  {
    if lo >= hi then None
    else if IsStart(cells[lo]) then Some(lo)
    else FirstStart(cells, lo + 1, hi)
  }

  /** shiftBufferToNewStart: the scan covers indices 1 to `buflast - 1`
      only, and the move copies `buflast - i` bytes, one fewer than are kept,
      so the byte at the new `buflast` is whatever was there before. */
  function Shift(s: Staging): (r: Staging)
    requires 0 <= s.last < |s.cells|
    ensures |r.cells| == |s.cells|
    ensures FirstStart(s.cells, 1, s.last).None? ==> r == Staging(s.cells, -1)
    ensures FirstStart(s.cells, 1, s.last).Some? ==>
      var i := FirstStart(s.cells, 1, s.last).value;
      && r.last == s.last - i
      && IsStart(r.cells[0])
      && r.cells[..r.last] == s.cells[i..s.last]
      && r.cells[r.last] == s.cells[r.last]
  {
    match FirstStart(s.cells, 1, s.last)
    case None => Staging(s.cells, -1)
    case Some(i) =>
      var r := Staging(MoveDown(s.cells, i, s.last - i), s.last - i);
      assert r.cells[..r.last] == s.cells[i..s.last];
      r
  }

  datatype Outcome = Outcome(staging: Staging, delivered: Option<Delivery>)

  /** One judgement and what follows it, up to the next `goto again` or the
      end of the pass: the buffer afterwards, the payload handed to
      consumePacket if any, and whether the buffer is judged again. */
  datatype Pass = Pass(outcome: Outcome, again: bool)

  /** The code at the `again:` label of loopstep: wait, drop, resynchronise
      (and go back to the label when a start byte is found), or hand the
      payload over and keep what follows the packet. */
  function Once(s: Staging): (p: Pass)
    requires 8 <= |s.cells| && -1 <= s.last < |s.cells|
    ensures |p.outcome.staging.cells| == |s.cells|
    ensures p.again ==> 1 <= p.outcome.staging.last < s.last && p.outcome.delivered.None?
    ensures !p.again ==> -1 <= p.outcome.staging.last <= |s.cells| - 2 && Judge(p.outcome.staging) == Wait
    ensures p.outcome.delivered.Some? ==>
      Checked(p.outcome.delivered.value) && |p.outcome.delivered.value.packet| + 3 >= |s.cells|
  {
    match Judge(s)
    case Wait => Pass(Outcome(s, None), false)
    case Drop => Pass(Outcome(Staging(s.cells, -1), None), false)
    case Resync =>
      var t := Shift(s);
      Pass(Outcome(t, None), t.last >= 0)
    case Accept(l) =>
      var n := l.PacketSize();
      var d := Delivery(s.cells[l.payloadStart..], l.payloadSize);
      DeliveryChecked(s.cells, l);
      if s.last >= n then Pass(Outcome(Staging(MoveDown(s.cells, n, s.last - n + 1), 0), Some(d)), false)
      else Pass(Outcome(Staging(s.cells, -1), Some(d)), false)
  }

  /** The test at `again:` waits exactly when fewer than seven bytes are
      staged, or when the staged bytes declare a packet that fits the buffer
      but is not wholly staged yet. */
  lemma JudgeWaits(s: Staging)
    requires 7 <= |s.cells| && -1 <= s.last < |s.cells|
    ensures Judge(s) == Wait <==>
      || s.last < MIN_RX_PACKET_SIZE
      || (LayoutOf(s.cells).Some? && LayoutOf(s.cells).value.PacketSize() <= |s.cells|
          && s.last + 1 < LayoutOf(s.cells).value.PacketSize())
  {
  }

  /** What each verdict does to the buffer: waiting changes nothing, a drop
      empties it, a resynchronisation is shiftBufferToNewStart and goes back
      to `again:` exactly when it found a start byte, and an accepted packet
      is handed over with what follows it moved to the front. */
  lemma OnceByVerdict(s: Staging)
    requires 8 <= |s.cells| && -1 <= s.last < |s.cells|
    ensures Judge(s) == Wait ==> Once(s) == Pass(Outcome(s, None), false)
    ensures Judge(s) == Drop ==> Once(s) == Pass(Outcome(Staging(s.cells, -1), None), false)
    ensures Judge(s) == Resync ==>
      && Once(s).outcome == Outcome(Shift(s), None)
      && (Once(s).again <==> FirstStart(s.cells, 1, s.last).Some?)
    ensures Judge(s).Accept? ==>
      var l := Judge(s).layout;
      var n := l.PacketSize();
      && !Once(s).again
      && Once(s).outcome.delivered == Some(Delivery(s.cells[l.payloadStart..], l.payloadSize))
      && (s.last >= n ==> Once(s).outcome.staging == Staging(MoveDown(s.cells, n, s.last - n + 1), 0))
      && (s.last < n ==> Once(s).outcome.staging == Staging(s.cells, -1))
  {
  }

  /** From the `again:` label to the end of one pass of loopstep's read
      loop. Each resynchronisation lowers `buflast`, so the passes end. */
  function Settle(s: Staging): (o: Outcome)
    requires 8 <= |s.cells| && -1 <= s.last < |s.cells|
    ensures |o.staging.cells| == |s.cells|
    ensures -1 <= o.staging.last <= |s.cells| - 2
    ensures Judge(o.staging) == Wait
    ensures o.delivered.Some? ==> Checked(o.delivered.value) && |o.delivered.value.packet| + 3 >= |s.cells|
    decreases s.last + 1
  {
    var p := Once(s);
    if p.again then Settle(p.outcome.staging) else p.outcome
  }

  lemma DeliveryChecked(cells: seq<uint8>, l: Layout)
    requires Framed(cells, l)
    ensures Checked(Delivery(cells[l.payloadStart..], l.payloadSize))
  {
    var packet := cells[l.payloadStart..];
    var n := l.payloadSize;
    assert packet[..n] == cells[l.payloadStart..l.payloadStart + n];
    assert packet[n] == cells[l.PacketSize() - 3] && packet[n + 1] == cells[l.PacketSize() - 2];
    assert packet[n + 2] == cells[l.PacketSize() - 1];
  }

  /** One received byte: while looking for a start, anything but 2 or 3 is
      dropped and a start byte becomes `buf[0]`; otherwise the byte is
      appended. Then the buffer is settled. */
  function Push(s: Staging, b: uint8): (o: Outcome)
    requires s.Valid()
    ensures o.staging.Valid() && |o.staging.cells| == |s.cells|
    ensures s.last < 0 && !IsStart(b) ==> o == Outcome(s, None)
    ensures s.last < 0 && IsStart(b) ==> o == Outcome(Staging(s.cells[0 := b], 0), None)
    ensures o.delivered.Some? ==> Checked(o.delivered.value) && |o.delivered.value.packet| + 3 >= |s.cells|
  {
    if s.last < 0 then
      if !IsStart(b) then Outcome(s, None) else Settle(Staging(s.cells[0 := b], 0))
    else Settle(Staging(s.cells[s.last + 1 := b], s.last + 1))
  }

  datatype Run = Run(staging: Staging, delivered: seq<Delivery>)

  /** A run of received bytes, one Push each. */
  function PushAll(s: Staging, bytes: seq<uint8>): (r: Run)
    requires s.Valid()
    ensures r.staging.Valid() && |r.staging.cells| == |s.cells|
    ensures forall k :: 0 <= k < |r.delivered| ==> Checked(r.delivered[k]) && |r.delivered[k].packet| + 3 >= |s.cells|
    decreases |bytes|
  {
    if bytes == [] then Run(s, [])
    else
      var prev := PushAll(s, bytes[..|bytes| - 1]);
      var o := Push(prev.staging, bytes[|bytes| - 1]);
      Run(o.staging, prev.delivered + Deliveries(o))
  }

  function Deliveries(o: Outcome): (r: seq<Delivery>)
    ensures |r| <= 1
  {
    if o.delivered.Some? then [o.delivered.value] else []
  }

  /** Receiving one more byte. */
  lemma PushAllSnoc(s: Staging, bytes: seq<uint8>, b: uint8)
    requires s.Valid()
    ensures var prev := PushAll(s, bytes);
      var o := Push(prev.staging, b);
      PushAll(s, bytes + [b]) == Run(o.staging, prev.delivered + Deliveries(o))
  {
    assert (bytes + [b])[..|bytes|] == bytes;
  }

  /** Runs of handed-over payloads regroup freely, and an empty run adds
      nothing. */
  lemma Regroup<T>(x: seq<T>, y: seq<T>, z: seq<T>)
    ensures (x + y) + z == x + (y + z)
    ensures [] + x == x && x + [] == x
  {
  }

  /** Receiving two runs is receiving the first, then the second from where
      the first left the buffer. */
  lemma {:induction false} PushAllAppend(s: Staging, a: seq<uint8>, b: seq<uint8>)
    requires s.Valid()
    ensures PushAll(s, a + b).staging == PushAll(PushAll(s, a).staging, b).staging
    ensures PushAll(s, a + b).delivered == PushAll(s, a).delivered + PushAll(PushAll(s, a).staging, b).delivered
    decreases |b|
  {
    if b == [] {
      assert a + b == a;
      Regroup(PushAll(s, a).delivered, [], []);
    } else {
      var b' := b[..|b| - 1];
      assert (a + b)[..|a + b| - 1] == a + b';
      PushAllAppend(s, a, b');
      var o := Push(PushAll(s, a + b').staging, b[|b| - 1]);
      Regroup(PushAll(s, a).delivered, PushAll(PushAll(s, a).staging, b').delivered, Deliveries(o));
    }
  }

  /** While looking for a start, bytes other than 2 and 3 leave no trace. */
  lemma {:induction false} SeekDropsGarbage(s: Staging, g: seq<uint8>)
    requires s.Valid() && s.last == -1
    requires forall k :: 0 <= k < |g| ==> !IsStart(g[k])
    ensures PushAll(s, g) == Run(s, [])
    decreases |g|
  {
    if g != [] {
      SeekDropsGarbage(s, g[..|g| - 1]);
    }
  }

  // ---------------------------------------------------------------------------
  // The size test as written (Findings 1 and 2)
  // ---------------------------------------------------------------------------

  /** An `int16_t` assignment: the value reduced into [-0x8000, 0x8000). */
  function Int16(x: int): (r: int)
    ensures -0x8000 <= r < 0x8000 && (r - x) % 0x10000 == 0
  {
    (x + 0x8000) % 0x10000 - 0x8000
  }

  /** loopstep's test as written: the short form's size is never compared
      with the buffer, and the long form's sizes are `int16_t`. None stands
      for a packet check that reads outside the buffer: a negative index for
      the end byte, or crc16 over a negative length. */
  function JudgeAsWritten(s: Staging): (v: Option<Verdict>)
    requires 7 <= |s.cells| && -1 <= s.last < |s.cells|
    ensures v.None? ==> s.cells[0] == LONG_START && s.cells[1] as int * 0x100 + s.cells[2] + 6 >= 0x8000
    ensures s.cells[0] == SHORT_START && MIN_RX_PACKET_SIZE <= s.last ==> v != Some(Drop)
  {
    if s.last < MIN_RX_PACKET_SIZE then Some(Wait)
    else if s.cells[0] == SHORT_START then
      var l := Layout(2, s.cells[1]);
      if s.last + 1 < l.PacketSize() then Some(Wait)
      else if !Framed(s.cells, l) then Some(Resync)
      else Some(Accept(l))
    else if s.cells[0] == LONG_START then
      var payloadsize := Int16(s.cells[1] as int * 0x100 + s.cells[2]);
      var packetsize := Int16(payloadsize + 6);
      if packetsize > |s.cells| then Some(Drop)
      else if s.last + 1 < packetsize then Some(Wait)
      else if packetsize < 1 then None
      else if payloadsize < 0 then
        if s.cells[packetsize - 1] == END_MARKER then None else Some(Resync)
      else if !Framed(s.cells, Layout(3, payloadsize)) then Some(Resync)
      else Some(Accept(Layout(3, payloadsize)))
    else Some(Drop)
  }

  /** Wherever the declared packet fits the buffer and its size fits an
      `int16_t`, the test as written and the corrected one agree. */
  lemma JudgeAsWrittenAgrees(s: Staging)
    requires 7 <= |s.cells| <= 0x7FFF && -1 <= s.last < |s.cells|
    requires s.cells[0] == SHORT_START ==> s.cells[1] as int + 5 <= |s.cells|
    requires s.cells[0] == LONG_START ==> s.cells[1] as int * 0x100 + s.cells[2] + 6 < 0x8000
    ensures JudgeAsWritten(s) == Some(Judge(s))
  {
    if s.cells[0] == LONG_START {
      var n := s.cells[1] as int * 0x100 + s.cells[2];
      Int16Within(n);
      Int16Within(n + 6);
    }
  }

  /** A value that fits an `int16_t` is stored unchanged. */
  lemma Int16Within(x: int)
    requires -0x8000 <= x < 0x8000
    ensures Int16(x) == x
  {
  }

  /** Finding 1: in a 128-byte buffer, a short-form packet declaring 200
      payload bytes is still awaited when the buffer is full, so the next
      byte is written at index 128, past its end. The corrected test drops
      the packet. */
  lemma ShortFormOverrun()
    ensures var s := Staging(seq(128, k => if k == 0 then 2 else if k == 1 then 200 else 0), 127);
      && JudgeAsWritten(s) == Some(Wait)
      && s.last + 1 == |s.cells|
      && Judge(s) == Drop
  {
  }

  /** Finding 2: a long-form length of 0x8000 wraps to -0x8000 in the
      `int16_t`, the packet size to -0x7FFA, which passes the room check, and
      the end byte is then read at index -0x7FFB. The corrected test drops
      the packet. */
  lemma LongFormWrap()
    ensures var s := Staging(seq(72, k => if k == 0 then 3 else if k == 1 then 0x80 else 0), 6);
      && Int16(s.cells[1] as int * 0x100 + s.cells[2] + 6) == -0x7FFA
      && JudgeAsWritten(s) == None
      && Judge(s) == Drop
  {
  }

  /** Finding 2 also without a negative length: 0x7FFA is a valid
      `int16_t` payload size, but the packet size 0x8000 wraps to -0x8000,
      passes the room check, and the end byte is read at index -0x8001. */
  lemma LongFormSizeWrap()
    ensures var s := Staging(seq(72, k => if k == 0 then 3 else if k == 1 then 0x7F else if k == 2 then 0xFA else 0), 6);
      && Int16(s.cells[1] as int * 0x100 + s.cells[2]) == 0x7FFA
      && Int16(0x7FFA + 6) == -0x8000
      && JudgeAsWritten(s) == None
      && Judge(s) == Drop
  {
  }
}
