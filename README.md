# VescUartApi in Dafny

A model of the core of VescUartApi, a small C++ driver for VESC motor
controllers that talks the VESC packet protocol over a serial line. It covers
two parts.

- The ring buffer (`common/ringbuffer.h`, `common/ringbuffer.cpp`) that the
  serial transports put between the UART and the driver. It is a class over
  a caller-owned array, with `start` and `len` fields. `push`, `pop` and
  `store` are methods whose new contents are stated as a window over the
  array, with wrap-around.
- The driver object (`src/vescuartapi.cpp`, `src/vescuartapi.h`):
  - The receive framer `loopstep` appends each byte to the staging buffer.
    At its `again:` label it waits, drops, resynchronises through
    `shiftBufferToNewStart`, or checks a packet's end byte and crc16
    (`checkPayloadCRC`) and hands the payload to `consumePacket`.
  - `consumePacket` dispatches to the telemetry decoder `rcvd_GET_VALUES`
    (full and selective form) and to `rcvd_FW_VERSION`.
  - On the transmit side, `sendCommand` and `sendCommandInplace` frame a
    payload, and the `ask*`/`set*` builders use them.

Each piece has an imperative form that follows the source's structure, and
a pure form it is proved against. Where the source is wrong (see Findings),
both forms follow the corrected behaviour instead of the code: "## Left out"
names the methods that do, and the as-written members named in Findings
model the code itself.

- `Framing` describes what one received byte does to the staging buffer, as
  functions. Its chain is `Judge`, then `Once` (the `again:` block), then
  `Settle`, then `Push` (one byte), then `PushAll` (a run of bytes).
- `Telemetry` describes what a delivered payload does to the observable
  state.
- `Codec` gives the packet layout and the encoder `Encode`.
- `VescUart.VescUartApi` is the class with `buf`, `buflast`, `values_data`,
  `fw_version`, the callback slot and a ghost `output` that records UART
  writes. Its methods `Step` and `Feed` are proved equal to `Push` and
  `PushAll` followed by `ConsumeAll`. `SendCommand` and `SendCommandInplace`
  are proved to write `Encode` of their payload.
- `RoundTrip` ties the two sides together. A packet built by `Encode` and
  fed byte by byte to an idle staging buffer is handed over whole, with the
  payload it was built from, and the buffer is idle again. A firmware
  version reply built this way sets `fw_version`.

Floating-point fields are kept as the raw integers that the decoder divides.
`uart->write` becomes an append to the ghost `output`. The bytes
`uart->read` returns are a parameter.

## Model

| member | source | states |
|---|---|---|
| Bytes.Int32Bytes | src/vescuartapi.cpp:300 | buffer_append_int32 writes four bytes, and reading them back as a big-endian int32 gives the value written |
| Codec.LayoutOf | src/vescuartapi.cpp:82-93 | a packet declares a layout exactly when its first byte is 2 or 3; the short form's packet size is its length byte plus 5; the long form's payload starts at 3 and its size is the two length bytes read big-endian, unsigned, so below 65536, with a packet size of the payload size plus 6 |
| Codec.CrcBytes | src/vescuartapi.cpp:359-360 | the two checksum bytes, read high byte first, are the payload's crc16 |
| Codec.CrcMatchesIff | src/vescuartapi.cpp:28-39 | checkPayloadCRC accepts a packet if and only if the two bytes before the end byte are exactly the checksum bytes the encoder writes |
| Codec.HeaderLayout | src/vescuartapi.cpp:342-355 | the header, whatever follows it, declares the payload length it was built from, in the short form up to 255 bytes and the long form above |
| Codec.Encode | src/vescuartapi.cpp:336-366 | the framed packet is 5 bytes longer than the payload (6 above 255 bytes), declares the payload's layout, carries the payload at that position, passes checkPayloadCRC and ends with byte 3 |
| Codec.HeaderAsWritten | src/vescuartapi.cpp:342-355 | the header as written is 2 bytes (short form) or 3 bytes (long form) |
| Codec.EncodeAsWritten | src/vescuartapi.cpp:342-361 | only a length: the packet as written is as long as its header, whose short form is taken up to 256 bytes, plus the payload plus 3; what it holds is stated by EncodeAsWrittenAgrees and EncodeAsWrittenMisdeclares |
| Codec.EncodeAsWrittenAgrees | src/vescuartapi.cpp:342-361 | for every payload length except 256, the encoder as written produces exactly Encode's packet |
| Codec.EncodeAsWrittenMisdeclares | src/vescuartapi.cpp:342-346 | a 256-byte payload goes out declaring a short-form packet with an empty payload, while Encode declares the long form with 256 bytes |
| Codec.CommandPayload | src/vescuartapi.cpp:294-302 | a set* payload is 5 bytes: the command id, then the 32-bit argument, which reads back unchanged |
| Mem.MoveDown | src/vescuartapi.cpp:50 | after memmove(buf, buf + from, count) the first count cells hold the moved bytes and every later cell keeps its old value |
| Mem.MemMove | src/vescuartapi.cpp:140 | the in-place front move leaves the array equal to MoveDown of its old contents |
| Mem.MemCopy | src/vescuartapi.cpp:356 | memcpy into the array leaves it equal to the old contents with the run copied at the offset |
| Ring.RingBuffer.Wrap | common/ringbuffer.h:31 | the constructor over caller storage yields an empty valid ring over that array, starting at 0 |
| Ring.RingBuffer.Allocate | common/ringbuffer.h:33-36 | the allocating constructor yields an empty valid ring over fresh storage of the requested size |
| Ring.RingBuffer.Length | common/ringbuffer.h:68 | length() is the number of bytes waiting to be popped |
| Ring.RingBuffer.FreeSpace | common/ringbuffer.h:69 | freeSpace() plus the stored bytes is bufsize - 1, so one slot always stays unused |
| Ring.RingBuffer.Push | common/ringbuffer.cpp:19-39 | push appends the byte after the stored ones, wrapping to the array's front; a full ring is first emptied and restarted at 0; the invariant is kept |
| Ring.RingBuffer.Pop | common/ringbuffer.cpp:41-56 | pop returns the oldest byte and removes it, moving start one slot on with wrap-around; an empty ring returns 0xFF and is unchanged |
| Ring.RingBuffer.Store | common/ringbuffer.h:38-67 | store appends the run after the stored bytes in order; a run larger than the free space first empties the ring and restarts it at 0 |
| Ring.RingBuffer.CopyIn | common/ringbuffer.h:46-66 | a run that fits is appended in order, whether it is copied in one piece or in two |
| Ring.RingBuffer.CopyRun | common/ringbuffer.h:47-52 | a run that fits before the end of the storage is appended with one copy |
| Ring.RingBuffer.CopyWrapping | common/ringbuffer.h:53-66 | a run that reaches past the end of the storage is appended in order: the part up to the end, then the rest from index -endchunksize |
| Ring.Drain | common/ringbuffer.cpp:41-56 | popping until the ring is empty yields exactly the stored bytes, oldest first |
| Ring.PushAll | common/ringbuffer.cpp:19-39 | pushing each byte of a run that fits into an empty ring leaves exactly that run stored |
| Ring.StoreThenDrain | common/ringbuffer.h:38-67 | chunks stored one at a time and drained in between come out concatenated in order, across any number of wrap-arounds |
| Ring.PushThenDrain | common/ringbuffer.cpp:19-56 | chunks pushed byte by byte and drained in between come out concatenated in order |
| Framing.Judge | src/vescuartapi.cpp:79-126 | the test at `again:` judges only once at least 7 bytes are staged, and it waits only with room for another byte; Drop means no start byte or a declared packet larger than the buffer; Accept means the declared packet is wholly staged with the right end byte and checksum; Resync means it is wholly staged and one of those fails |
| Framing.JudgeWaits | src/vescuartapi.cpp:79-114 | the test at `again:` waits exactly when fewer than 7 bytes are staged, or when the staged bytes declare a packet that fits the buffer but is not yet wholly staged |
| Framing.FirstStart | src/vescuartapi.cpp:43-53 | the found index holds a 2 or 3 and no earlier index in the range does; none found means no index in the range does |
| Framing.Shift | src/vescuartapi.cpp:41-56 | with a first start byte at index i in 1..buflast-1, the bytes from i up to buflast are moved to the front, buflast drops by i, and the byte at the new buflast keeps its old value, because memmove copies one byte too few; otherwise buflast becomes -1 and the cells are unchanged |
| Framing.Once | src/vescuartapi.cpp:78-145 | one pass of the `again:` block keeps the buffer size; going back to the label strictly lowers buflast and hands nothing over; stopping leaves a buffer the framer waits on, with room for another byte; a payload handed over is followed by its checksum and end byte |
| Framing.OnceByVerdict | src/vescuartapi.cpp:78-145 | Wait changes nothing; Drop sets buflast to -1; Resync leaves the buffer as shiftBufferToNewStart does and goes back to the label exactly when it found a start byte; Accept hands over the payload and its size, then moves the bytes after the packet to the front with buflast 0, or sets buflast to -1 when none follow |
| Framing.Settle | src/vescuartapi.cpp:78-147 | the passes from `again:` to the end of a read-loop iteration end with a buffer the framer waits on, and anything handed over passed its checks |
| Framing.DeliveryChecked | src/vescuartapi.cpp:114-135 | an accepted packet's payload reaches consumePacket followed by its crc16 bytes and the end byte |
| Framing.Push | src/vescuartapi.cpp:63-78 | while seeking, a byte other than 2 or 3 is dropped with no other effect, and a start byte becomes buf[0] with buflast 0; the buffer invariant is kept and any payload handed over passed its checks |
| Framing.PushAll | src/vescuartapi.cpp:58-148 | after any run of bytes the buffer invariant holds and every payload handed over passed its end-byte and checksum checks |
| Framing.PushAllSnoc | src/vescuartapi.cpp:63-147 | receiving one more byte is one more Push from where the run left the buffer, and its payload, if any, is appended |
| Framing.PushAllAppend | src/vescuartapi.cpp:58-148 | two calls of loopstep over two runs leave the same buffer and hand over the same payloads as one call over the runs concatenated |
| Framing.SeekDropsGarbage | src/vescuartapi.cpp:66-69 | while seeking, any run without a 2 or 3 leaves the buffer unchanged and hands nothing over |
| Framing.Int16 | src/vescuartapi.cpp:90-93 | an int16_t assignment stores a value in [-32768, 32768) congruent to the one assigned, modulo 65536 |
| Framing.JudgeAsWritten | src/vescuartapi.cpp:79-134 | the test as written never drops a short-form packet once 7 bytes are staged, and it reads outside the buffer (None) only for a long-form length whose packet size overflows an int16_t |
| Framing.JudgeAsWrittenAgrees | src/vescuartapi.cpp:79-117 | wherever the declared packet fits the buffer and its size fits an int16_t, the test as written gives the same verdict as Judge |
| Framing.ShortFormOverrun | src/vescuartapi.cpp:82-87 | with a 128-byte buffer, a full buffer holding a short-form packet that declares 200 bytes is still awaited by the test as written, so the next byte goes to index 128; Judge drops it |
| Framing.LongFormWrap | src/vescuartapi.cpp:90-96 | a long-form length of 0x8000 gives a packet size of -0x7FFA, which passes the room check, and the test as written reads the end byte at a negative index; Judge drops it |
| Framing.LongFormSizeWrap | src/vescuartapi.cpp:90-117 | a long-form length of 0x7FFA fits an int16_t, but its packet size 0x8000 wraps to -0x8000, passes the room check, and the test as written reads the end byte at a negative index; Judge drops it |
| Telemetry.Width | src/vescuartapi.cpp:179-244 | each GET_VALUES field takes 1, 2, 4 or (bit 18) 6 bytes |
| Telemetry.StartStep | src/vescuartapi.cpp:179-244 | with every field present the fields lie back to back, each starting where the previous one ends |
| Telemetry.Offset | src/vescuartapi.cpp:179-244 | whatever the mask, a field starts no later than with every bit set, and every field ends within 64 bytes of the first |
| Telemetry.ValuesUpdate | src/vescuartapi.cpp:171-177 | rcvd_GET_VALUES leaves values_data alone exactly when a full reply has fewer than 54 bytes; a selective reply is always decoded |
| Telemetry.Consume | src/vescuartapi.cpp:249-278 | consumePacket strips the id and passes the size less one as a uint16_t; GET_VALUES and GET_VALUES_SELECTIVE set values_data to ValuesUpdate's result and invoke the callback once when it is set, or change nothing when a full reply is too short; FW_VERSION sets fw_version to the two data bytes when there are at least two and touches nothing else; other ids change nothing; the callback slot never changes |
| Telemetry.ConsumeAll | src/vescuartapi.cpp:135 | consuming a sequence of payloads keeps the callback slot and never lowers the callback count |
| Telemetry.ConsumeAllSnoc | src/vescuartapi.cpp:135 | consuming what one more byte handed over is consuming its payload, if any, after the earlier ones |
| Telemetry.FullReplySpan | src/vescuartapi.cpp:177-244 | a full reply is decoded from 64 bytes, ten more than the length check demands |
| Telemetry.FullOffsets | src/vescuartapi.cpp:179-244 | with the all-ones mask of a full reply, each field is read at its fixed position |
| Telemetry.OffsetsDisjoint | src/vescuartapi.cpp:179-244 | whatever the mask, a field that is read ends before every later field starts, so no byte is read twice |
| Telemetry.SelectiveMotorCurrentAndRpm | src/vescuartapi.cpp:175-204 | a selective reply with mask 0x84 sets the average motor current from the 4 bytes after the mask and rpm from the next 4, and keeps every other field |
| Telemetry.DecodeMotorCurrentAndRpm | src/vescuartapi.cpp:185-204 | decoding with mask 0x84 reads exactly those two fields, back to back from the first data byte |
| Telemetry.EmptyMaskKeepsValues | src/vescuartapi.cpp:179-244 | a selective reply with an empty mask leaves values_data as it was |
| Telemetry.EmptyPayloadIsFwVersion | src/vescuartapi.cpp:249-263 | an empty payload that passed the framer's checks is taken as a FW_VERSION reply and sets fw_version to 0.3 |
| VescUart.ShiftBufferToNewStart | src/vescuartapi.cpp:41-56 | the array and new buflast are Shift of the old ones, and the result is true exactly when a start byte exists in 1..buflast-1 |
| VescUart.ReadTemperatures | src/vescuartapi.cpp:179-187 | bits 0 to 2 each overwrite their field from the read position exactly when set, and the position moves past each field read |
| VescUart.ReadCurrents | src/vescuartapi.cpp:188-198 | bit 3 overwrites the input current when set; bits 4 and 5 only move the read position |
| VescUart.ReadDutyRpmVoltage | src/vescuartapi.cpp:199-207 | bits 6 to 8 each overwrite their field exactly when set, and the position moves past each field read |
| VescUart.ReadCharge | src/vescuartapi.cpp:208-217 | bits 9 and 10 overwrite the amp-hour counters when set; bit 11 only moves the read position |
| VescUart.ReadTachometer | src/vescuartapi.cpp:218-227 | bit 12 only moves the read position; bits 13 and 14 overwrite the tachometers when set |
| VescUart.ReadFaultPositionId | src/vescuartapi.cpp:228-244 | bits 15 to 17 overwrite fault, PID position and controller id when set; bit 18 moves the position past three int16s |
| VescUart.FramedShort | src/vescuartapi.cpp:344-361 | sendCommand's stores leave Encode of the payload at the front of its local array |
| VescUart.FramedInPlace | src/vescuartapi.cpp:377-396 | sendCommandInplace's stores leave Encode of the payload in the frame, starting at index 1 (short form) or 0 (long form), and change nothing outside it |
| VescUart.PutHeader | src/vescuartapi.cpp:377-391 | the header is copied so that it ends at index 3, where the payload starts |
| VescUart.PutTrailer | src/vescuartapi.cpp:394-396 | the checksum's high byte, its low byte and the end byte are stored from the given index |
| VescUart.VescUartApi.constructor | src/vescuartapi.h:83-86 | a new driver has an empty staging buffer (buflast -1), fw_version 0.0, no callback and has written nothing |
| VescUart.VescUartApi.Step | src/vescuartapi.cpp:63-147 | one read-loop iteration leaves the staging buffer as Push says and the observable state as consuming Push's payload, if any, says |
| VescUart.VescUartApi.Again | src/vescuartapi.cpp:78-113 | the `again:` block leaves the buffer, the go-back flag and the observable state as Once says |
| VescUart.VescUartApi.CheckPacket | src/vescuartapi.cpp:114-134 | once the declared packet is staged, the end-byte and checksum checks and what follows them do what Once says |
| VescUart.VescUartApi.Deliver | src/vescuartapi.cpp:135-144 | a packet that passed its checks is consumed; the bytes staged after it move to the front and buflast becomes 0 however many moved, or, when none follow, buflast becomes -1 |
| VescUart.VescUartApi.Feed | src/vescuartapi.cpp:58-148 | loopstep over the available bytes leaves the buffer as PushAll says and the observable state as consuming every payload PushAll hands over, in order |
| VescUart.VescUartApi.ConsumePacket | src/vescuartapi.cpp:249-278 | consumePacket changes values_data, fw_version and the callback count exactly as Consume says |
| VescUart.VescUartApi.RcvdFwVersion | src/vescuartapi.cpp:164-169 | fw_version becomes the first two data bytes, unless the reply has fewer than two |
| VescUart.VescUartApi.RcvdGetValues | src/vescuartapi.cpp:171-247 | values_data becomes ValuesUpdate's result and the callback runs once if set, or nothing changes when a full reply is too short |
| VescUart.VescUartApi.SetRxDataCB | src/vescuartapi.cpp:403-415 | only a GET_VALUES id sets the callback slot; any other id leaves it as it was |
| VescUart.VescUartApi.SendCommand | src/vescuartapi.cpp:336-366 | writes exactly Encode of the payload and returns its length |
| VescUart.VescUartApi.SendCommandInplace | src/vescuartapi.cpp:368-401 | frames the payload at frame[3..] in place as Encode does, writes exactly that packet, returns its length, and leaves the frame's other bytes alone |
| VescUart.VescUartApi.AppendInt32 | src/vescuartapi.cpp:300 | buffer_append_int32 copies the argument's four bytes at the index and advances it by 4 |
| VescUart.VescUartApi.AskValues | src/vescuartapi.cpp:280-285 | writes Encode of the one-byte GET_VALUES command |
| VescUart.VescUartApi.AskFwVersion | src/vescuartapi.cpp:287-292 | writes Encode of the one-byte FW_VERSION command |
| VescUart.VescUartApi.SendInt32Command | src/vescuartapi.cpp:294-302 | writes Encode of the id followed by the big-endian argument |
| VescUart.VescUartApi.SetCurrent | src/vescuartapi.cpp:294-302 | writes Encode of SET_CURRENT and the argument |
| VescUart.VescUartApi.SetCurrentBrake | src/vescuartapi.cpp:304-312 | writes Encode of SET_CURRENT_BRAKE and the argument |
| VescUart.VescUartApi.SetDuty | src/vescuartapi.cpp:315-323 | writes Encode of SET_DUTY and the argument |
| VescUart.VescUartApi.SetRPM | src/vescuartapi.cpp:325-333 | writes Encode of SET_RPM and the argument |
| RoundTrip.PrefixWaits | src/vescuartapi.cpp:79-114 | from an idle buffer, while fewer than all of a packet's bytes are staged, or at most 6 of them, the framer waits |
| RoundTrip.ReceiveStart | src/vescuartapi.cpp:66-72 | a start byte received while seeking becomes buf[0] and nothing more is handed over |
| RoundTrip.PushWaits | src/vescuartapi.cpp:73-79 | a byte appended to a buffer that the framer then waits on is simply stored |
| RoundTrip.ReceiveWaiting | src/vescuartapi.cpp:73-79 | after any run of bytes, a byte the framer then waits on is stored and nothing more is handed over |
| RoundTrip.PushAccepts | src/vescuartapi.cpp:114-143 | the byte that completes a well-framed packet hands its payload over and sets buflast to -1 |
| RoundTrip.PushAcceptsNext | src/vescuartapi.cpp:114-142 | the byte after a wholly staged, well-framed packet completes the judgement: the payload is handed over and that byte is moved to index 0 with buflast 0 |
| RoundTrip.ReceiveNext | src/vescuartapi.cpp:58-148 | after a run that handed nothing over, one more byte is one more Push, and only its payload is handed over |
| RoundTrip.ReceiveAccepting | src/vescuartapi.cpp:114-143 | after a run that handed nothing over, the byte that completes a well-framed packet hands over exactly that payload and leaves buflast -1 |
| RoundTrip.Prefix | src/vescuartapi.cpp:58-148 | the first bytes of a packet received from an idle buffer are staged in order, and nothing is handed over |
| RoundTrip.FramedPrefix | src/vescuartapi.cpp:117-126 | the end-byte and checksum checks look only at the packet's own bytes |
| RoundTrip.WholeAccepts | src/vescuartapi.cpp:79-126 | a whole well-framed packet of at least 7 bytes, staged, is accepted |
| RoundTrip.LastByteAfter | src/vescuartapi.cpp:114-143 | a well-framed packet of at least 7 bytes, received from an idle buffer as all but its last byte and then that byte, hands its payload over and leaves the buffer idle |
| RoundTrip.LastByte | src/vescuartapi.cpp:114-143 | a well-framed packet of at least 7 bytes received from an idle buffer hands its payload over on its last byte and leaves the buffer idle |
| RoundTrip.EncodeFramed | src/vescuartapi.cpp:342-361 | an encoded packet starts with a start byte, declares its own length and is well framed |
| RoundTrip.EncodeDelivers | src/vescuartapi.cpp:58-148 | a packet of a payload of at least 2 bytes, encoded and received from an idle buffer, hands over exactly one payload, of the original size and contents, and leaves the buffer idle |
| RoundTrip.MinimalPacketWaits | src/vescuartapi.cpp:79 | a packet of 5 or 6 bytes is still waiting after its last byte, because loopstep tries a decode only with 7 bytes staged |
| RoundTrip.MinimalPacketAccepts | src/vescuartapi.cpp:79-126 | a 6-byte packet staged with one more byte after it is accepted with its own layout |
| RoundTrip.MinimalPacketNextByte | src/vescuartapi.cpp:138-142 | the byte after a 6-byte packet completes it: its payload is handed over and that byte is kept at index 0 |
| RoundTrip.ConsumeFwVersion | src/vescuartapi.cpp:261-262 | a single FW_VERSION payload sets fw_version to its two data bytes |
| RoundTrip.FwVersionReply | src/vescuartapi.cpp:164-169 | a firmware version reply, encoded and received from an idle buffer, sets fw_version to its two bytes, changes nothing else observable, and leaves the buffer idle |
| RoundTrip.GarbageThenPacket | src/vescuartapi.cpp:66-69 | bytes without a 2 or 3, received before an encoded packet, do not stop it from being handed over whole, and the buffer ends idle |
| RoundTrip.PacketGarbagePacket | src/vescuartapi.cpp:58-148 | a packet, any bytes without a 2 or 3, then a second packet: when the first payload has at least 2 bytes, both payloads are handed over, in order, and the buffer ends idle |
| RoundTrip.HeadlessPrefix | src/vescuartapi.cpp:73-79 | behind a first byte that is not 2 or 3, fewer than six more bytes are appended and staged, and nothing is handed over |
| RoundTrip.HeadlessDrops | src/vescuartapi.cpp:106-111 | once seven bytes are staged behind a first byte that is not 2 or 3, all of them are dropped and the framer looks for a start again |
| RoundTrip.HeadlessPacket | src/vescuartapi.cpp:66-111 | a 7-byte packet received behind such a byte is dropped with it, and its end byte is taken as a new packet start |
| RoundTrip.ShortPacketLosesNext | src/vescuartapi.cpp:138-142 | a 1-byte payload's packet, one byte that is not 2 or 3, then a 2-byte payload's packet: only the first payload is handed over, and the buffer ends holding the second packet's end byte |
| RoundTrip.EmptyPacketThenThree | src/vescuartapi.cpp:138-142 | two bytes after an empty payload's packet are moved to the front with buflast 0, so a third byte overwrites the second |
| RoundTrip.EmptyPacketLosesLength | src/vescuartapi.cpp:138-142 | an empty payload's packet followed at once by another packet: the empty payload is handed over, and the next packet's length byte is overwritten by the byte after it |

## Left out

- I/O: `uart->available()` and `uart->read()` become the byte sequence given to `Feed`. `uart->write` becomes an append to the ghost `output`. `begin` only forwards to the UART and is not modelled.
- The serial transports in `avr_version/` and `linux_version/` are not part of this model. `Ring.StoreThenDrain` and `Ring.PushThenDrain` only state their use of the ring buffer.
- `crc16` (crc.h), the `buffer_get_*`/`buffer_append_int32` helpers (buffer.h) and the COMM_PACKET_ID values (datatypes.h) are not part of this model. The checksum is taken to be CRC-16/XMODEM (polynomial 0x1021, initial value 0), computed bit by bit rather than through a table. The readers are taken as big-endian two's-complement integers of 1, 2 and 4 bytes. The ids are those of the VESC firmware.
- Floating point: `buffer_get_float16`/`float32` divide an integer by a scale. The model keeps the integer and notes the scale beside each `ValuesData` field.
- The GET_VALUES callback is a function pointer. The model keeps whether it is set, and a ghost count of its invocations. What the callback does is outside the core.
- `values_data` is left uninitialised by the constructor. The model's constructor leaves it unconstrained.
- `pingAmAlive` is declared in the header but has no body in the source, and `struct bldcMeasure` is unused. Neither is modelled.
- loopstep's local `packetsize`, `payloadstart` and `payloadsize` carry across `continue`. They are 0 or equal to what the first three staged bytes declare, so the model recomputes them from those bytes.
- Framing.Staging.Valid: the staging buffer is required to hold between 72 and 32767 bytes. The decoders read up to 68 bytes past the payload's first data byte, which the source relies on without checking. `bufsize` is an `int16_t`.
- VescUart.VescUartApi.SendCommand: requires at most 251 payload bytes. The source's 256-byte local array would be overrun by anything longer.
- VescUart.VescUartApi.SendCommandInplace: requires fewer than 32768 payload bytes (an `int16_t` `cmdlen`) and a frame with 3 free bytes on each side of the payload, as the source's comment demands.
- Ring.RingBuffer.Store: requires a run of at most `bufsize - 1` bytes. A run of exactly `bufsize` bytes is copied in bounds after the reset, but leaves `len` equal to `bufsize`, so `freeSpace()` becomes -1 and the free slot that tells a full ring from an empty one is lost. A run of `bufsize + 1` up to `2 * bufsize` bytes is also copied in bounds: the first `memcpy` fills the whole storage and the second writes the rest from index 0 again, over the run's first bytes, and `len` becomes the run's length, which breaks the invariant the same way. Only a run longer than `2 * bufsize` bytes is written past the end of the storage.
- VescUart.VescUartApi.Again: applies the corrected test of Findings 1 and 2, as Framing.Judge does. It drops a short-form packet larger than the buffer, and it reads the long-form length unsigned. VescUart.VescUartApi.Step, VescUart.VescUartApi.CheckPacket and VescUart.VescUartApi.Feed therefore model the corrected loopstep. Framing.JudgeAsWritten is the test as the source writes it.
- VescUart.PutHeader: uses the short form up to 255 payload bytes, the correction of Finding 3, and not the source's `<= 256`. So do VescUart.FramedInPlace and VescUart.VescUartApi.SendCommandInplace. Codec.EncodeAsWritten is the framing as written.
- Ring.RingBuffer.Valid: requires `2 <= bufsize <= 32767`. A one-cell ring could never hold a byte.
- `RingBuffer` fields are `int16_t`; the model's integers are unbounded within those limits.
- RoundTrip.EncodeDelivers: covers payloads of at least 2 bytes, whose packets reach loopstep's 7-byte decode threshold. Shorter payloads are covered by RoundTrip.MinimalPacketWaits and RoundTrip.MinimalPacketNextByte.
- RoundTrip.PacketGarbagePacket: holds only for a first payload of at least 2 bytes. After a shorter one, the bytes staged past its 5- or 6-byte packet are moved to the front with `buflast` set to 0 (lines 138-142), and loopstep then stages further bytes behind the first of them. RoundTrip.ShortPacketLosesNext shows a second packet lost behind one byte of noise after a 1-byte payload, and RoundTrip.EmptyPacketLosesLength shows the next packet's length byte overwritten after an empty payload. The model follows the source here and does not re-scan those bytes for a packet start.
- The functions the methods are proved against (`Push`, `PushAll`, `Settle`, `Consume`, `Encode`, the `Window` of the ring) are pure and work on sequences. Aliasing between the caller's payload and the driver's buffer is not modelled.

## Findings

| source | as written | input that shows it | evidently intended | confidence | as-written member | corrected member |
|---|---|---|---|---|---|---|
| src/vescuartapi.cpp:82-87 | the short form's declared size is never compared with `bufsize`, so the framer keeps waiting when the buffer is full and `buf[++buflast] = b` writes past its end | a 128-byte buffer holding 128 bytes that start with 2, 200 | drop a packet larger than the buffer, as the long form does at lines 96-104 | not executed | Framing.ShortFormOverrun | Framing.Judge |
| src/vescuartapi.cpp:90-93 | `payloadsize` and `packetsize` are `int16_t`, so a long-form length of 0x8000 or more wraps negative, and one of 0x7FFA to 0x7FFF gives a packet size that wraps negative; the size then passes the room check, and the end byte is read at a negative index | the bytes 3, 0x80, 0x00 followed by 4 more | treat the length as unsigned and drop packets larger than the buffer | not executed | Framing.LongFormWrap | Framing.Judge |
| src/vescuartapi.cpp:342-346 | the short form is taken for `cmdlen <= 256`, and its length byte is the `uint8_t` truncation of `cmdlen`; a 256-byte payload is sent declaring 0 bytes; sendCommandInplace makes the same test at line 377 | any payload of exactly 256 bytes | the short form only up to 255 bytes | not executed | Codec.EncodeAsWrittenMisdeclares | Codec.Encode |
