/** The VESC packet layout shared by the receive framer and the transmit
    encoders: a start byte (2 for a one-byte length, 3 for a two-byte
    big-endian length), the payload, its crc16 high byte first, and the end
    byte 3. Also the command ids and the command payloads the driver sends. */
module Codec {
  import opened Bytes

  // COMM_PACKET_ID values. The firmware's datatypes.h is not part of this
  // model; these are the values of the VESC firmware's command enumeration.
  const COMM_FW_VERSION: uint8 := 0
  const COMM_GET_VALUES: uint8 := 4
  const COMM_SET_DUTY: uint8 := 5
  const COMM_SET_CURRENT: uint8 := 6
  const COMM_SET_CURRENT_BRAKE: uint8 := 7
  const COMM_SET_RPM: uint8 := 8
  const COMM_GET_VALUES_SELECTIVE: uint8 := 50

  /** Where a packet's payload starts and how long it is. */
  datatype Layout = Layout(payloadStart: nat, payloadSize: nat)
  {
    /** Header, payload, two checksum bytes and the end byte. */
    function PacketSize(): nat {
      payloadStart + payloadSize + 3
    }
  }

  /** The layout a packet's first bytes declare: 2, len (packet size
      len + 5) or 3, len_hi, len_lo (packet size len + 6); any other first
      byte declares none. */
  function LayoutOf(f: seq<uint8>): (r: Option<Layout>)
    requires 3 <= |f|
    ensures r.Some? <==> IsStart(f[0])
    ensures f[0] == SHORT_START ==> r == Some(Layout(2, f[1])) && r.value.PacketSize() == f[1] as int + 5
    ensures f[0] == LONG_START ==> r == Some(Layout(3, f[1] as int * 0x100 + f[2]))
                                   && r.value.payloadSize < 0x10000 && r.value.PacketSize() == r.value.payloadSize + 6
  {
    if f[0] == SHORT_START then Some(Layout(2, f[1]))
    else if f[0] == LONG_START then Some(Layout(3, f[1] as int * 0x100 + f[2]))
    else None
  }

  /** The checksum as the packet carries it, high byte first. */
  function CrcBytes(payload: seq<uint8>): (r: seq<uint8>)
    ensures |r| == 2 && r[0] as int * 0x100 + r[1] == Crc16(payload)
  {
    var c := Crc16(payload);
    [c / 0x100, c % 0x100]
  }

  /** checkPayloadCRC: the two bytes before the end byte, read big-endian,
      equal crc16 of the payload. */
  predicate CrcMatches(packet: seq<uint8>, packetsize: nat, payload: seq<uint8>)
    requires 3 <= packetsize <= |packet|
  {
    packet[packetsize - 3] as int * 0x100 + packet[packetsize - 2] == Crc16(payload)
  }

  /** The check accepts exactly the packets whose checksum bytes are the
      ones the encoder writes. */
  lemma CrcMatchesIff(packet: seq<uint8>, packetsize: nat, payload: seq<uint8>)
    requires 3 <= packetsize <= |packet|
    ensures CrcMatches(packet, packetsize, payload) <==> packet[packetsize - 3..packetsize - 1] == CrcBytes(payload)
  {
    var hi, lo := packet[packetsize - 3], packet[packetsize - 2];
    var c := CrcBytes(payload);
    if CrcMatches(packet, packetsize, payload) {
      assert hi as int * 0x100 + lo == c[0] as int * 0x100 + c[1];
      assert hi == c[0] && lo == c[1];
      assert packet[packetsize - 3..packetsize - 1] == [hi, lo];
    }
  }

  /** The header sendCommand writes, with the short form for payloads of at
      most 255 bytes (see Findings: the source's test is `<= 256`). */
  function Header(n: nat): (r: seq<uint8>)
    requires n < 0x10000
    ensures 2 <= |r| <= 3
  {
    if n <= 255 then [SHORT_START, n] else [LONG_START, n / 0x100, n % 0x100]
  }

  /** The header declares the length it was built from, whatever follows it. */
  lemma HeaderLayout(n: nat, rest: seq<uint8>)
    requires n < 0x10000 && 1 <= |rest|
    ensures LayoutOf(Header(n) + rest) == Some(Layout(|Header(n)|, n))
  {
    var f := Header(n) + rest;
    if n > 255 {
      assert f[0] == LONG_START && f[1] == n / 0x100 && f[2] == n % 0x100;
      assert (n / 0x100) * 0x100 + n % 0x100 == n;
    }
  }

  /** A framed packet as sendCommand and sendCommandInplace put it on the
      wire. */
  function Encode(p: seq<uint8>): (r: seq<uint8>)
    requires |p| < 0x8000
    ensures |r| == |p| + (if |p| <= 255 then 5 else 6)
    ensures LayoutOf(r) == Some(Layout(|r| - |p| - 3, |p|))
    ensures r[|r| - |p| - 3..|r| - 3] == p
    ensures CrcMatches(r, |r|, p) && r[|r| - 1] == END_MARKER
  {
    var r := Header(|p|) + p + (CrcBytes(p) + [END_MARKER]);
    FramedParts(p, Header(|p|), CrcBytes(p), r);
    r
  }

  /** What Encode promises, for a packet put together from its parts. */
  lemma FramedParts(p: seq<uint8>, h: seq<uint8>, c: seq<uint8>, r: seq<uint8>)
    requires |p| < 0x8000 && h == Header(|p|) && c == CrcBytes(p)
    requires r == h + p + (c + [END_MARKER])
    ensures |r| == |p| + (if |p| <= 255 then 5 else 6)
    ensures LayoutOf(r) == Some(Layout(|r| - |p| - 3, |p|))
    ensures r[|r| - |p| - 3..|r| - 3] == p
    ensures CrcMatches(r, |r|, p) && r[|r| - 1] == END_MARKER
  {
    assert r == h + (p + (c + [END_MARKER]));
    HeaderLayout(|p|, p + (c + [END_MARKER]));
    assert r[|h|..|r| - 3] == p;
    assert r[|r| - 3..|r| - 1] == c;
    CrcMatchesIff(r, |r|, p);
  }

  /** The header as the source writes it: the short form is taken up to 256
      bytes and the length byte is the `uint8_t` truncation of `cmdlen`. */
  function HeaderAsWritten(n: nat): (r: seq<uint8>)
    requires n < 0x10000
    ensures 2 <= |r| <= 3
  {
    if n <= 256 then [SHORT_START, n % 0x100] else [LONG_START, n / 0x100, n % 0x100]
  }

  function EncodeAsWritten(p: seq<uint8>): (r: seq<uint8>)
    requires |p| < 0x8000
    ensures |r| == |HeaderAsWritten(|p|)| + |p| + 3
  {
    HeaderAsWritten(|p|) + p + CrcBytes(p) + [END_MARKER]
  }

  /** Every length but 256 is framed as intended. */
  lemma EncodeAsWrittenAgrees(p: seq<uint8>)
    requires |p| < 0x8000 && |p| != 256
    ensures EncodeAsWritten(p) == Encode(p)
  {
    var h, c := Header(|p|), CrcBytes(p);
    if |p| <= 255 {
      assert |p| % 0x100 == |p|;
    }
    assert HeaderAsWritten(|p|) == h;
    assert h + p + c + [END_MARKER] == h + p + (c + [END_MARKER]);
  }

  /** A 256-byte payload goes out declaring an empty one, so the receiver
      looks for the end byte at index 4, inside the payload. */
  lemma EncodeAsWrittenMisdeclares(p: seq<uint8>)
    requires |p| == 256
    ensures LayoutOf(EncodeAsWritten(p)) == Some(Layout(2, 0))
    ensures LayoutOf(Encode(p)) == Some(Layout(3, 256))
  {
  }

  /** The payload of the set* builders: the command id and the big-endian
      32-bit argument. */
  function CommandPayload(id: uint8, v: int): (r: seq<uint8>)
    requires IsInt32(v)
    ensures |r| == 5 && r[0] == id && Int32At(r[1..], 0) == v
  {
    var r := [id] + Int32Bytes(v);
    assert r[1..] == Int32Bytes(v);
    r
  }
}
