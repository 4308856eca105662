/** The transmit and receive sides against each other: a packet built by the
    encoder and received byte by byte from an idle staging buffer is handed
    to consumePacket with the payload it was built from, and a reply built
    this way updates the driver's state as its command id says. */
module RoundTrip {
  import opened Bytes
  import opened Codec
  import opened Framing
  import opened Telemetry
  import opened Mem

  /** An idle staging buffer: looking for a packet start. */
  predicate Idle(cells: seq<uint8>) {
    Staging(cells, -1).Valid()
  }

  /** The buffer once the first `k` bytes of `e` have been received. */
  function Filled(cells: seq<uint8>, e: seq<uint8>, k: nat): (r: seq<uint8>)
    requires k <= |e| <= |cells|
    ensures |r| == |cells| && r[..k] == e[..k]
  {
    e[..k] + cells[k..]
  }

  /** The first `k` bytes are the first `k - 1` and one more. */
  lemma TakeSnoc(e: seq<uint8>, k: nat)
    requires 1 <= k <= |e|
    ensures e[..k - 1] + [e[k - 1]] == e[..k]
    ensures k == |e| ==> e[..k] == e
  {
  }

  /** Receiving byte `k - 1` of `e` into a buffer that holds its first
      `k - 1` bytes. */
  lemma FilledNext(cells: seq<uint8>, e: seq<uint8>, k: nat)
    requires 1 <= k <= |e| <= |cells|
    ensures Filled(cells, e, k - 1)[k - 1 := e[k - 1]] == Filled(cells, e, k)
  {
    assert e[..k] == e[..k - 1] + [e[k - 1]];
  }

  /** A buffer the framer judges to be waiting is left as it is. */
  lemma SettleWaits(s: Staging)
    requires 8 <= |s.cells| && -1 <= s.last < |s.cells| && Judge(s) == Wait
    ensures Settle(s) == Outcome(s, None)
  {
  }

  /** The first three bytes decide the layout. */
  lemma LayoutOfPrefix(c: seq<uint8>, e: seq<uint8>)
    requires 3 <= |c| && 3 <= |e| && c[..3] == e[..3]
    ensures LayoutOf(c) == LayoutOf(e)
  {
    assert c[0] == e[0] && c[1] == e[1] && c[2] == e[2];
  }

  /** A packet that declares its own length, with the first `k` of its
      bytes staged: the framer waits for the rest, and with at most seven
      bytes staged it waits in any case. */
  lemma PrefixWaits(cells: seq<uint8>, e: seq<uint8>, l: Layout, k: nat)
    requires 72 <= |cells| && 3 <= |e| <= |cells|
    requires LayoutOf(e) == Some(l) && l.PacketSize() == |e|
    requires 1 <= k <= |e| && (k < |e| || k <= MIN_RX_PACKET_SIZE)
    ensures Judge(Staging(Filled(cells, e, k), k - 1)) == Wait
  {
    if MIN_RX_PACKET_SIZE <= k - 1 {
      LayoutOfPrefix(Filled(cells, e, k), e);
    }
  }

  /** A start byte received by an idle buffer becomes its first byte. */
  lemma ReceiveStart(s0: Staging, bytes: seq<uint8>, b: uint8)
    requires s0.Valid() && PushAll(s0, bytes).staging.last == -1 && IsStart(b)
    ensures var r := PushAll(s0, bytes);
      PushAll(s0, bytes + [b]) == Run(Staging(r.staging.cells[0 := b], 0), r.delivered)
  {
    var r := PushAll(s0, bytes);
    PushAllSnoc(s0, bytes, b);
    Regroup(r.delivered, [], []);
  }

  /** The buffer with one more byte appended after `buflast`. */
  function Append(s: Staging, b: uint8): (r: Staging)
    requires s.Valid() && 0 <= s.last
    ensures r.Valid0() && r.last == s.last + 1 && r.cells[r.last] == b
  {
    Staging(s.cells[s.last + 1 := b], s.last + 1)
  }

  /** Appending byte `k - 1` of `e` to a buffer that holds its first
      `k - 1` bytes. */
  lemma FilledAppend(cells: seq<uint8>, e: seq<uint8>, k: nat)
    requires Idle(cells) && 2 <= k <= |e| <= |cells|
    ensures Append(Staging(Filled(cells, e, k - 1), k - 2), e[k - 1]) == Staging(Filled(cells, e, k), k - 1)
  {
    FilledNext(cells, e, k);
  }

  /** A byte appended to a staged packet that is still awaited. */
  lemma PushWaits(s: Staging, b: uint8)
    requires s.Valid() && 0 <= s.last && Judge(Append(s, b)) == Wait
    ensures Push(s, b) == Outcome(Append(s, b), None)
  {
  }

  /** The same, after any run of bytes: nothing more is handed over. */
  lemma ReceiveWaiting(s0: Staging, bytes: seq<uint8>, b: uint8)
    requires s0.Valid() && 0 <= PushAll(s0, bytes).staging.last
    requires Judge(Append(PushAll(s0, bytes).staging, b)) == Wait
    ensures var r := PushAll(s0, bytes);
      PushAll(s0, bytes + [b]) == Run(Append(r.staging, b), r.delivered)
  {
    var r := PushAll(s0, bytes);
    PushWaits(r.staging, b);
    PushAllSnoc(s0, bytes, b);
    Regroup(r.delivered, [], []);
  }

  /** The byte that completes a well-framed packet with nothing after it:
      the payload is handed over and the buffer goes back to looking for a
      start. */
  lemma PushAccepts(s: Staging, b: uint8, l: Layout)
    requires s.Valid() && 0 <= s.last
    requires Judge(Append(s, b)) == Accept(l) && l.PacketSize() == s.last + 2
    ensures var x := Append(s, b).cells;
      Push(s, b) == Outcome(Staging(x, -1), Some(Delivery(x[l.payloadStart..], l.payloadSize)))
  {
  }

  /** After a run of bytes that handed nothing over, one more byte is one
      more Push. */
  lemma ReceiveNext(s0: Staging, bytes: seq<uint8>, s: Staging, b: uint8)
    requires s0.Valid() && PushAll(s0, bytes) == Run(s, [])
    ensures PushAll(s0, bytes + [b]) == Run(Push(s, b).staging, Deliveries(Push(s, b)))
  {
    PushAllSnoc(s0, bytes, b);
    Regroup(Deliveries(Push(s, b)), [], []);
  }

  /** The byte that completes a packet, after a run of bytes that handed
      nothing over: the payload is the only thing handed over. */
  lemma ReceiveAccepting(s0: Staging, bytes: seq<uint8>, s: Staging, b: uint8, l: Layout)
    requires s0.Valid() && PushAll(s0, bytes) == Run(s, []) && 0 <= s.last
    requires Judge(Append(s, b)) == Accept(l) && l.PacketSize() == s.last + 2
    ensures var x := Append(s, b).cells;
      PushAll(s0, bytes + [b]) == Run(Staging(x, -1), [Delivery(x[l.payloadStart..], l.payloadSize)])
  {
    ReceiveNext(s0, bytes, s, b);
    PushAccepts(s, b, l);
  }

  /** The first byte of a packet, received by an idle buffer. */
  lemma PrefixOne(cells: seq<uint8>, e: seq<uint8>)
    requires Idle(cells) && 1 <= |e| <= |cells| && IsStart(e[0])
    ensures PushAll(Staging(cells, -1), e[..1]) == Run(Staging(Filled(cells, e, 1), 0), [])
  {
    ReceiveStart(Staging(cells, -1), [], e[0]);
    assert [] + [e[0]] == e[..1];
    FilledNext(cells, e, 1);
  }

  /** One more byte of a packet that is still awaited. */
  lemma PrefixNext(cells: seq<uint8>, e: seq<uint8>, k: nat)
    requires Idle(cells) && 2 <= k <= |e| <= |cells|
    requires PushAll(Staging(cells, -1), e[..k - 1]) == Run(Staging(Filled(cells, e, k - 1), k - 2), [])
    requires Judge(Staging(Filled(cells, e, k), k - 1)) == Wait
    ensures PushAll(Staging(cells, -1), e[..k]) == Run(Staging(Filled(cells, e, k), k - 1), [])
  {
    FilledAppend(cells, e, k);
    TakeSnoc(e, k);
    ReceiveWaiting(Staging(cells, -1), e[..k - 1], e[k - 1]);
  }

  /** Receiving the first `k` bytes of a packet that starts with a start
      byte and declares its own length: staged, nothing handed over. */
  lemma {:induction false} Prefix(cells: seq<uint8>, e: seq<uint8>, l: Layout, k: nat)
    requires Idle(cells) && 3 <= |e| <= |cells| && IsStart(e[0])
    requires LayoutOf(e) == Some(l) && l.PacketSize() == |e|
    requires 1 <= k <= |e| && (k < |e| || k <= MIN_RX_PACKET_SIZE)
    ensures PushAll(Staging(cells, -1), e[..k]) == Run(Staging(Filled(cells, e, k), k - 1), [])
  {
    if k == 1 {
      PrefixOne(cells, e);
    } else {
      Prefix(cells, e, l, k - 1);
      PrefixWaits(cells, e, l, k);
      PrefixNext(cells, e, k);
    }
  }

  /** The checks of a packet look at its own bytes only. */
  lemma FramedPrefix(c: seq<uint8>, e: seq<uint8>, l: Layout)
    requires |e| <= |c| && c[..|e|] == e && l.PacketSize() == |e| && Framed(e, l)
    ensures Framed(c, l)
  {
    var n := |e|;
    assert c[n - 3] == e[n - 3] && c[n - 2] == e[n - 2] && c[n - 1] == e[n - 1];
    assert c[l.payloadStart..l.payloadStart + l.payloadSize] == e[l.payloadStart..l.payloadStart + l.payloadSize] by {
      assert c[..n][l.payloadStart..l.payloadStart + l.payloadSize] == e[l.payloadStart..l.payloadStart + l.payloadSize];
    }
  }

  /** A whole well-framed packet staged: the framer accepts it. */
  lemma WholeAccepts(cells: seq<uint8>, e: seq<uint8>, l: Layout)
    requires 72 <= |cells| && MIN_RX_PACKET_SIZE < |e| <= |cells|
    requires LayoutOf(e) == Some(l) && l.PacketSize() == |e| && Framed(e, l)
    ensures Judge(Staging(Filled(cells, e, |e|), |e| - 1)) == Accept(l)
  {
    var c := Filled(cells, e, |e|);
    LayoutOfPrefix(c, e);
    FramedPrefix(c, e, l);
  }

  /** The last byte of a well-framed packet of at least seven bytes, as
      one byte received after all the others. */
  lemma LastByteAfter(cells: seq<uint8>, e: seq<uint8>, l: Layout)
    requires Idle(cells) && MIN_RX_PACKET_SIZE < |e| <= |cells| && IsStart(e[0])
    requires LayoutOf(e) == Some(l) && l.PacketSize() == |e| && Framed(e, l)
    ensures var c := Filled(cells, e, |e|);
      PushAll(Staging(cells, -1), e[..|e| - 1] + [e[|e| - 1]])
        == Run(Staging(c, -1), [Delivery(c[l.payloadStart..], l.payloadSize)])
  {
    var n := |e|;
    Prefix(cells, e, l, n - 1);
    WholeAccepts(cells, e, l);
    FilledAppend(cells, e, n);
    ReceiveAccepting(Staging(cells, -1), e[..n - 1], Staging(Filled(cells, e, n - 1), n - 2), e[n - 1], l);
  }

  /** The last byte of a well-framed packet of at least seven bytes: the
      payload is handed over and the buffer is idle again. */
  lemma LastByte(cells: seq<uint8>, e: seq<uint8>, l: Layout)
    requires Idle(cells) && MIN_RX_PACKET_SIZE < |e| <= |cells| && IsStart(e[0])
    requires LayoutOf(e) == Some(l) && l.PacketSize() == |e| && Framed(e, l)
    ensures var r := PushAll(Staging(cells, -1), e);
      var c := Filled(cells, e, |e|);
      && r.staging == Staging(c, -1)
      && r.delivered == [Delivery(c[l.payloadStart..], l.payloadSize)]
  {
    LastByteAfter(cells, e, l);
    TakeSnoc(e, |e|);
  }

  /** Encode(p) starts with a start byte and declares its own layout. */
  lemma EncodeFramed(p: seq<uint8>)
    requires |p| < 0x8000
    ensures var e := Encode(p); var l := Layout(|e| - |p| - 3, |p|);
      && 3 <= |e| && IsStart(e[0]) && LayoutOf(e) == Some(l) && l.PacketSize() == |e| && Framed(e, l)
  {
  }

  /** A packet of at least seven bytes, received from an idle buffer that
      can hold it, is handed over whole on its last byte: the payload is the
      encoded one, and the buffer is idle again. */
  lemma EncodeDelivers(cells: seq<uint8>, p: seq<uint8>)
    requires Idle(cells) && 2 <= |p| < 0x8000 && |Encode(p)| <= |cells|
    ensures var r := PushAll(Staging(cells, -1), Encode(p));
      && r.staging == Staging(Filled(cells, Encode(p), |Encode(p)|), -1)
      && |r.delivered| == 1
      && r.delivered[0].size == |p|
      && r.delivered[0].packet[..|p|] == p
  {
    var e := Encode(p);
    var l := Layout(|e| - |p| - 3, |p|);
    EncodeFramed(p);
    LastByte(cells, e, l);
    var c := Filled(cells, e, |e|);
    assert c[l.payloadStart..][..|p|] == e[l.payloadStart..l.payloadStart + |p|] by {
      assert c[..|e|] == e;
    }
  }

  /** A packet of at most six bytes is still waiting after its last byte:
      loopstep tries a decode only with seven bytes staged. */
  lemma MinimalPacketWaits(cells: seq<uint8>, p: seq<uint8>)
    requires Idle(cells) && |p| <= 1
    ensures var r := PushAll(Staging(cells, -1), Encode(p));
      && r.staging == Staging(Filled(cells, Encode(p), |Encode(p)|), |Encode(p)| - 1)
      && r.delivered == []
  {
    var e := Encode(p);
    EncodeFramed(p);
    Prefix(cells, e, Layout(2, |p|), |e|);
    assert e[..|e|] == e;
  }

  /** The byte after a whole packet that was still awaited: the framer
      accepts the packet, hands its payload over and keeps that byte at
      index 0. */
  lemma PushAcceptsNext(s: Staging, b: uint8, l: Layout)
    requires s.Valid() && 0 <= s.last
    requires Judge(Append(s, b)) == Accept(l) && l.PacketSize() == s.last + 1
    ensures var x := Append(s, b).cells;
      Push(s, b) == Outcome(Staging(MoveDown(x, l.PacketSize(), 1), 0), Some(Delivery(x[l.payloadStart..], l.payloadSize)))
  {
  }

  /** A six-byte packet staged with one more byte after it is accepted. */
  lemma MinimalPacketAccepts(cells: seq<uint8>, p: seq<uint8>, b: uint8)
    requires Idle(cells) && |p| == 1
    ensures var e := Encode(p);
      Judge(Append(Staging(Filled(cells, e, 6), 5), b)) == Accept(Layout(2, 1))
  {
    var e := Encode(p);
    var l := Layout(2, 1);
    EncodeFramed(p);
    var c := Filled(cells, e, 6)[6 := b];
    LayoutOfPrefix(c, e);
    assert c[..6] == e;
    FramedPrefix(c, e, l);
  }

  /** The one byte that follows a six-byte packet completes it: the packet
      is handed over, and the byte after it is kept at index 0. */
  lemma MinimalPacketNextByte(cells: seq<uint8>, p: seq<uint8>, b: uint8)
    requires Idle(cells) && |p| == 1
    ensures var r := PushAll(Staging(cells, -1), Encode(p) + [b]);
      && r.staging.last == 0 && r.staging.cells[0] == b
      && |r.delivered| == 1
      && r.delivered[0].size == 1 && r.delivered[0].packet[0] == p[0]
  {
    var e := Encode(p);
    assert |e| == 6 && e[2..3] == p;
    var s := Staging(Filled(cells, e, 6), 5);
    MinimalPacketWaits(cells, p);
    assert PushAll(Staging(cells, -1), e) == Run(s, []);
    ReceiveNext(Staging(cells, -1), e, s, b);
    MinimalPacketAccepts(cells, p, b);
    PushAcceptsNext(s, b, Layout(2, 1));
    var x := Append(s, b).cells;
    assert x[6] == b && x[2] == e[2];
  }

  /** A single firmware version payload sets the version to its two data
      bytes. */
  lemma ConsumeFwVersion(t: Observed, ds: seq<Delivery>, major: uint8, minor: uint8)
    requires |ds| == 1 && 69 <= |ds[0].packet| && ds[0].size == 3
    requires ds[0].packet[..3] == [COMM_FW_VERSION, major, minor]
    ensures ConsumeAll(t, ds) == t.(fw := FwVersion(major, minor))
  {
    assert ds[..0] == [];
    assert ds[0].packet[0] == COMM_FW_VERSION && ds[0].packet[1] == major && ds[0].packet[2] == minor;
  }

  /** A firmware version reply, received from an idle buffer, sets the
      version to its two data bytes and leaves the telemetry alone. */
  lemma FwVersionReply(t: Observed, cells: seq<uint8>, major: uint8, minor: uint8)
    requires Idle(cells)
    ensures var r := PushAll(Staging(cells, -1), Encode([COMM_FW_VERSION, major, minor]));
      && r.staging.last == -1
      && ConsumeAll(t, r.delivered) == t.(fw := FwVersion(major, minor))
  {
    var p := [COMM_FW_VERSION, major, minor];
    EncodeDelivers(cells, p);
    ConsumeFwVersion(t, PushAll(Staging(cells, -1), Encode(p)).delivered, major, minor);
  }

  /** Line noise without a start byte, received before a packet, changes
      nothing: the packet is still handed over whole. */
  lemma GarbageThenPacket(cells: seq<uint8>, g: seq<uint8>, p: seq<uint8>)
    requires Idle(cells) && 2 <= |p| < 0x8000 && |Encode(p)| <= |cells|
    requires forall k :: 0 <= k < |g| ==> !IsStart(g[k])
    ensures var r := PushAll(Staging(cells, -1), g + Encode(p));
      && r.staging.last == -1
      && |r.delivered| == 1
      && r.delivered[0].size == |p|
      && r.delivered[0].packet[..|p|] == p
  {
    PushAllAppend(Staging(cells, -1), g, Encode(p));
    SeekDropsGarbage(Staging(cells, -1), g);
    EncodeDelivers(cells, p);
  }
  /** Two packets with line noise between them: while the first payload has
      at least 2 bytes, the buffer is idle again after it, so the noise is
      dropped and both payloads are handed over, in order. */
  lemma PacketGarbagePacket(cells: seq<uint8>, p1: seq<uint8>, g: seq<uint8>, p2: seq<uint8>)
    requires Idle(cells) && 2 <= |p1| < 0x8000 && |Encode(p1)| <= |cells|
    requires 2 <= |p2| < 0x8000 && |Encode(p2)| <= |cells|
    requires forall k :: 0 <= k < |g| ==> !IsStart(g[k])
    ensures var r := PushAll(Staging(cells, -1), Encode(p1) + g + Encode(p2));
      && r.staging.last == -1
      && |r.delivered| == 2
      && r.delivered[0].size == |p1| && r.delivered[0].packet[..|p1|] == p1
      && r.delivered[1].size == |p2| && r.delivered[1].packet[..|p2|] == p2
  {
    var s0 := Staging(cells, -1);
    var e1 := Encode(p1);
    assert e1 + g + Encode(p2) == e1 + (g + Encode(p2));
    PushAllAppend(s0, e1, g + Encode(p2));
    EncodeDelivers(cells, p1);
    GarbageThenPacket(PushAll(s0, e1).staging.cells, g, p2);
  }

  /** Bytes appended behind a first byte that is not a packet start, fewer
      than loopstep needs for a decode: they are staged, and nothing is
      handed over. */
  lemma {:induction false} HeadlessPrefix(s: Staging, q: seq<uint8>)
    requires s.Valid() && s.last == 0 && !IsStart(s.cells[0]) && |q| < MIN_RX_PACKET_SIZE
    ensures var r := PushAll(s, q);
      && r.staging.last == |q| && r.staging.cells[0] == s.cells[0] && r.delivered == []
    decreases |q|
  {
    if q != [] {
      var q' := q[..|q| - 1];
      HeadlessPrefix(s, q');
      var prev := PushAll(s, q');
      SettleWaits(Append(prev.staging, q[|q| - 1]));
      Regroup(prev.delivered, [], []);
    }
  }

  /** The byte that brings such a buffer to seven bytes: its first byte
      declares no packet, so all seven are dropped. */
  lemma HeadlessDrops(s: Staging, q: seq<uint8>)
    requires s.Valid() && s.last == 0 && !IsStart(s.cells[0]) && |q| == MIN_RX_PACKET_SIZE
    ensures PushAll(s, q).staging.last == -1 && PushAll(s, q).delivered == []
  {
    var q' := q[..|q| - 1];
    HeadlessPrefix(s, q');
    var prev := PushAll(s, q');
    var t := Append(prev.staging, q[|q| - 1]);
    OnceByVerdict(t);
    Regroup(prev.delivered, [], []);
  }

  /** A 7-byte packet received behind such a first byte: its first six
      bytes are dropped with it, and its end byte is taken for the start of
      another packet. */
  lemma HeadlessPacket(s: Staging, e: seq<uint8>)
    requires s.Valid() && s.last == 0 && !IsStart(s.cells[0])
    requires |e| == MIN_RX_PACKET_SIZE + 1 && e[|e| - 1] == END_MARKER
    ensures var r := PushAll(s, e);
      && r.staging.last == 0 && r.staging.cells[0] == END_MARKER && r.delivered == []
  {
    var q := e[..|e| - 1];
    HeadlessDrops(s, q);
    PushAllSnoc(s, q, END_MARKER);
    TakeSnoc(e, |e|);
    Regroup(PushAll(s, q).delivered, [], []);
  }

  /** The resynchronisation fails after a 1-byte payload: the byte that
      completes its 6-byte packet is kept at index 0 with `buflast` 0, and a
      byte that is not a packet start there makes loopstep drop the next
      packet with it once seven bytes are staged. Of a 1-byte payload, one
      byte of noise and a 2-byte payload, only the first is handed over. */
  lemma ShortPacketLosesNext(cells: seq<uint8>, p1: seq<uint8>, g: uint8, p2: seq<uint8>)
    requires Idle(cells) && |p1| == 1 && !IsStart(g) && |p2| == 2
    ensures var r := PushAll(Staging(cells, -1), Encode(p1) + [g] + Encode(p2));
      && |r.delivered| == 1
      && r.delivered[0].size == 1 && r.delivered[0].packet[0] == p1[0]
      && r.staging.last == 0 && r.staging.cells[0] == END_MARKER
  {
    var s0 := Staging(cells, -1);
    var a := Encode(p1) + [g];
    MinimalPacketNextByte(cells, p1, g);
    PushAllAppend(s0, a, Encode(p2));
    HeadlessPacket(PushAll(s0, a).staging, Encode(p2));
    Regroup(PushAll(s0, a).delivered, [], []);
  }
  /** Two bytes after an empty payload's 5-byte packet: the packet is handed
      over and both bytes are moved to the front, but `buflast` is set to 0,
      so the byte after them is written over the second of them. */
  lemma EmptyPacketThenThree(s: Staging, a: uint8, b: uint8, c: uint8)
    requires s.Valid() && s.last == 4 && s.cells[..5] == Encode([])
    ensures var r := PushAll(s, [a, b, c]);
      && |r.delivered| == 1 && r.delivered[0].size == 0
      && r.staging.last == 1 && r.staging.cells[0] == a && r.staging.cells[1] == c
  {
    var e0: seq<uint8> := Encode([]);
    var l := Layout(2, 0);
    EncodeFramed([]);
    var t1 := Append(s, a);
    PushWaits(s, a);
    var t2 := Append(t1, b);
    assert t2.cells[..5] == e0;
    LayoutOfPrefix(t2.cells, e0);
    FramedPrefix(t2.cells, e0, l);
    OnceByVerdict(t2);
    var u := Staging(MoveDown(t2.cells, 5, 2), 0);
    assert Push(t1, b) == Outcome(u, Some(Delivery(t2.cells[2..], 0)));
    PushWaits(u, c);
    var d := Delivery(t2.cells[2..], 0);
    PushAllSnoc(s, [], a);
    assert [] + [a] == [a] && [a] + [b] == [a, b] && [a, b] + [c] == [a, b, c];
    Regroup([d], [], []);
    assert PushAll(s, [a]) == Run(t1, []);
    PushAllSnoc(s, [a], b);
    assert PushAll(s, [a, b]) == Run(u, [d]);
    PushAllSnoc(s, [a, b], c);
  }

  /** An empty payload's packet followed at once by another packet: the
      empty payload is handed over, and the next packet's length byte is
      overwritten by the byte after it. */
  lemma EmptyPacketLosesLength(cells: seq<uint8>, p2: seq<uint8>)
    requires Idle(cells) && 2 <= |p2| < 0x8000 && |Encode(p2)| <= |cells|
    ensures var e2 := Encode(p2);
      var r := PushAll(Staging(cells, -1), Encode([]) + e2[..3]);
      && |r.delivered| == 1 && r.delivered[0].size == 0
      && r.staging.last == 1 && r.staging.cells[0] == e2[0] && r.staging.cells[1] == e2[2]
  {
    var s0 := Staging(cells, -1);
    var e0: seq<uint8> := Encode([]);
    var e2 := Encode(p2);
    MinimalPacketWaits(cells, []);
    var s := Staging(Filled(cells, e0, 5), 4);
    assert PushAll(s0, e0) == Run(s, []);
    PushAllAppend(s0, e0, e2[..3]);
    assert e2[..3] == [e2[0], e2[1], e2[2]];
    EmptyPacketThenThree(s, e2[0], e2[1], e2[2]);
    Regroup(PushAll(s, e2[..3]).delivered, [], []);
  }
}
