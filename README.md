# ParityDataLinkLayer in Dafny

A model of `ParityDataLinkLayer`, the data link layer of the Flow-Control
project. It frames outgoing data with start, stop and escape tags and a
parity bit. It recovers frames from the bytes the physical layer delivers.
It runs a stop-and-wait protocol with 1-bit frame numbers, ACKs and NACKs.

Modules:

- `Bytes` (`bytes.dfy`): Java's signed `byte` as an `int` in [-128, 127].
  It also holds the tags `{` = 123, `}` = 125, `\` = 92, the frame kinds
  DATA = 0, ACK = 1, NACK = 2, the `-1` "nothing recorded" value and the
  `(byte)` cast.
- `ParityCodec` (`parity.dfy`): `Ones`, the bit count `sumOnes` computes.
  `Parity` of a byte sequence. One-bit errors (`FlipByteBit`) and what they
  do to parity.
- `Framing` (`framing.dfy`): the framer and deframer as functions.
  `Stuff`/`StuffAll` are what `addData` appends. `EncodeFrame` is the wire
  image `createFrame`, `sendAck` and `sendNack` build. `Scan`/`Deframe` are
  `processFrame` as written, including the drain of `cleanBufferUpTo`.
  `DeframeIntended` is the corrected deframer of the finding below.
- `DataLink` (`data_link.dfy`): the class `ParityDataLinkLayer`. Its fields
  are those at lines 22-23 and 27-28, plus the inherited `receiveBuffer`
  and `latestFrameSent`. The indicators at lines 24-26 are the constants
  of `Bytes`. Its methods follow the Java methods step by step:
  - `SumOnes` and `RecomputeParity` are proved equal to `Ones` and
    `Parity` of `ParityCodec`;
  - `AddData`, `CreateFrame`, `ControlFrame`, `SendAck` and `SendNack`
    are proved equal to `Stuff` and `EncodeFrame` of `Framing`;
  - `ProcessFrame` and `ExtractFrame` are proved equal to `Deframe` of
    `Framing`, and `ScanNext` to one step of `Scan`, through `Pending`;
  - `FinishFrameReceive` is stated through `Classify`, the decision of
    `finishFrameReceive`;
  - `HandleAckReceivedBySender`, `HandleNackReceivedBySender`,
    `FinishFrameSendStep`, `CleanBufferUpTo` and `ToByteArray` state their
    effect on the fields directly. Four client methods (`DeliverOneFrame`,
  `AckAdvancesSender`, `DuplicateDeliveredOnce`,
  `NackTriggersRetransmission`) run a sender and a receiver against each
  other. `CorruptedFrameNacked` runs a single receiver on a damaged
  deframed frame. `ReceiveIntactDataFrame` and `ReceiveIntactControlFrame`
  are the receive path (`processFrame`, then `finishFrameReceive`) that the
  two-link methods share.

The inherited `transmit` and `client.receive` are modelled as logs, the
fields `transmitted` and `delivered`. Each call appends its byte array or
payload. The `Deque`/`Queue` objects the Java code builds are `seq` values.
`processFrame` is split in two methods, `ProcessFrame` (the search for the
start tag) and `ExtractFrame` (the extraction loop). One pass of the
extraction loop is the method `ScanNext`. It reports the early `return null`
after a trailing escape tag as a flag, and `ExtractFrame` then returns
None. The parity loop of `finishFrameReceive` is the method
`RecomputeParity`. This keeps each proof small.

The type of `receiveBuffer` is declared in `DataLinkLayer`, which is not
part of this model. After a mid-frame start tag, `cleanBufferUpTo` empties
the buffer through a second iterator. What the scanning iterator then does
depends on the collection. The class constant `scanSurvivesDrain` names
the choice:

- `false`: a `LinkedList` iterator, whose `hasNext` compares its index with
  the list's size. The scan ends, and `processFrame` returns null.
- `true`: an iterator that goes on over the bytes it had not reached.

Every lemma about the deframer holds for both. The comment at lines
149-150 says a start tag mid-frame restarts extraction. The code does that
only in the second case. The model follows the code, and the second
finding below gives the corrected behaviour (`IntendedResync`).

## Model

| member | source | states |
|---|---|---|
| `ParityCodec.PopCountBelow` | ParityDataLinkLayer.java:87-113 | a value below 2^k has at most k set bits, so a byte's count is at most 8 |
| `ParityCodec.Ones` | ParityDataLinkLayer.java:87-113 | the bit count of a byte, taken on its unsigned value, is between 0 and 8 |
| `ParityCodec.FlipByteBitOnes` | ParityDataLinkLayer.java:87-113 | inverting any one bit of a byte, negative or not, changes its count of set bits by exactly one |
| `ParityCodec.SingleBitFlipChangesParity` | ParityDataLinkLayer.java:218-224 | a one-bit error anywhere in a byte sequence changes its parity |
| `ParityCodec.TwoFlipsInDistinctBytesUndetected` | ParityDataLinkLayer.java:218-224 | two one-bit errors in two different bytes leave the parity unchanged: the detector's blind spot |
| `Framing.FirstStart` | ParityDataLinkLayer.java:122-132 | the index where the start-tag search stops: no start tag before it, and a start tag at it unless it is the end |
| `Framing.Scan` | ParityDataLinkLayer.java:140-179 | the extraction loop returns a frame only if the bytes it scans contain a stop tag, and returning one means the buffer was drained |
| `Framing.Extract` | ParityDataLinkLayer.java:140-180 | the extraction loop, on a buffer that begins with its start tag, leaves that buffer either empty or untouched, and empty whenever a frame is returned |
| `Framing.Deframe` | ParityDataLinkLayer.java:120-180 | processFrame leaves either an empty buffer or the buffer from its first start tag on, and the buffer is empty whenever a frame is returned |
| `Framing.ScanStuffed` | ParityDataLinkLayer.java:152-170 | scanning the stuffed image of any bytes collects exactly those bytes: the escape-then-literal rule inverts addData |
| `Framing.EncodeFrame` | ParityDataLinkLayer.java:40-78 | the wire image createFrame, sendAck and sendNack build opens with the start tag, closes with the stop tag, and carries a parity bit of 0 or 1 right after the start tag |
| `Framing.DeframeEncodeFrame` | ParityDataLinkLayer.java:40-78 | round trip: a buffer starting with a frame built by the framer, whatever follows, yields `[parity, frameNumber, kind, payload...]` |
| `Framing.DeframeSkipsGarbage` | ParityDataLinkLayer.java:122-132 | bytes before the first start tag are discarded and have no effect on the result |
| `Framing.DeframeNoStartTag` | ParityDataLinkLayer.java:134-138 | without a start tag there is no frame and the buffer is emptied |
| `Framing.DeframeIncomplete` | ParityDataLinkLayer.java:153-178 | a frame that ends before its stop tag, or right after an escape byte, gives no frame and the buffer from its start tag on is kept |
| `Framing.ScanResync` | ParityDataLinkLayer.java:165-167 | at an unescaped start tag mid-frame, everything collected so far is dropped; whatever the call still returns comes from the bytes after that tag |
| `Framing.DeframeResyncExample` | ParityDataLinkLayer.java:165-167 | `garbage { p1 { p2 }` gives p2 when the scan survives the drain and no frame otherwise; p1 never reaches a frame and the buffer ends empty |
| `Framing.DataFrameExample` | ParityDataLinkLayer.java:40-78 | DATA frame 0 with payload 41 42 is `7B 00 00 00 41 42 7D` |
| `Framing.AckFrameExample` | ParityDataLinkLayer.java:298-327 | the ACK for frame 0 is `7B 01 00 01 7D` |
| `Framing.EscapedStopTagExample` | ParityDataLinkLayer.java:80-85 | a payload byte 7D travels as `5C 7D` and is deframed back to the single byte 7D |
| `Framing.DrainLosesFollowingFrame` | ParityDataLinkLayer.java:182-188 | as written: with two frames back to back in the buffer, the first call returns the first frame and the second is lost |
| `Framing.DeframeIntendedEncodeFrame` | ParityDataLinkLayer.java:147-148 | corrected: the frame is returned and the bytes after its stop tag stay in the buffer |
| `Framing.IntendedKeepsFollowingFrame` | ParityDataLinkLayer.java:182-188 | corrected: two frames back to back are both returned, by two calls |
| `Framing.ScanFrom` | ParityDataLinkLayer.java:143-172 | corrected extraction loop: it never lengthens the buffer, and when it returns a frame it has removed at least the bytes up to the scan position and the stop tag |
| `Framing.DeframeIntended` | ParityDataLinkLayer.java:120-180 | corrected processFrame, removing only processed bytes (comments at lines 147-150): the buffer never grows, and a returned frame takes with it at least the bytes up to the first start tag, that tag and the stop tag |
| `Framing.ScanFromStuffedToStart` | ParityDataLinkLayer.java:165-167 | corrected: after the stuffed image of any bytes, an unescaped start tag drops them and the scan goes on exactly as a fresh extraction from that tag |
| `Framing.DeframeIntendedSkipsGarbage` | ParityDataLinkLayer.java:122-132 | corrected: bytes before the first start tag are discarded and have no effect on the result |
| `Framing.IntendedResyncFromStart` | ParityDataLinkLayer.java:165-167 | corrected: `{ p1 { p2 }` gives p2 and an empty buffer; the bytes of p1 are dropped at the second start tag |
| `Framing.IntendedResync` | ParityDataLinkLayer.java:165-167 | corrected: `garbage { p1 { p2 }` gives p2 and an empty buffer; p1 is dropped |
| `DataLink.FramedContentAccepted` | ParityDataLinkLayer.java:230-263 | an undamaged frame from the framer passes both parity checks and is classified by its kind alone |
| `DataLink.Classify` | ParityDataLinkLayer.java:230-263 | a deframed frame is corrupted exactly when its parity byte is not the parity of the bytes after it, which covers a parity byte other than 0 or 1; an intact frame is judged by its kind byte alone: ACK, NACK, DATA or unknown |
| `DataLink.SingleBitErrorDetected` | ParityDataLinkLayer.java:230-243 | any one-bit error in the parity byte or in any later byte of a deframed frame makes it corrupted |
| `DataLink.NextFrameNumber` | ParityDataLinkLayer.java:196 | `(byte)((n + 1) % 2)` turns 0 into 1 and 1 into 0 |
| `DataLink.ParityDataLinkLayer.constructor` | ParityDataLinkLayer.java:22-28 | both frame numbers start at 0, latest ACK and NACK at -1, and the link invariant holds |
| `DataLink.ParityDataLinkLayer.SumOnes` | ParityDataLinkLayer.java:87-113 | both loops return the set bits of the unsigned value (data + 256 for a negative byte), between 0 and 8 |
| `DataLink.ParityDataLinkLayer.AddData` | ParityDataLinkLayer.java:80-85 | appends `[92, b]` for a tag byte and `[b]` otherwise, leaving earlier elements as they were |
| `DataLink.ParityDataLinkLayer.CreateFrame` | ParityDataLinkLayer.java:40-78 | returns the wire image of a DATA frame with the current sending frame number, and changes no field |
| `DataLink.ParityDataLinkLayer.ControlFrame` | ParityDataLinkLayer.java:302-326 | the bytes sendAck and sendNack build are the wire image of a payload-free frame of that kind |
| `DataLink.ParityDataLinkLayer.SendAck` | ParityDataLinkLayer.java:298-327 | transmits exactly one ACK frame for the given frame number and changes nothing else |
| `DataLink.ParityDataLinkLayer.SendNack` | ParityDataLinkLayer.java:329-358 | transmits exactly one NACK frame for the given frame number and changes nothing else |
| `DataLink.ParityDataLinkLayer.ToByteArray` | ParityDataLinkLayer.java:360-376 | a new array holding the queue's bytes in order |
| `DataLink.ParityDataLinkLayer.CleanBufferUpTo` | ParityDataLinkLayer.java:182-188 | its own new iterator is never the object `end`, so the receive buffer ends empty |
| `DataLink.ParityDataLinkLayer.ProcessFrame` | ParityDataLinkLayer.java:120-138 | the returned frame and the buffer left behind are those `Deframe` gives for the old buffer |
| `DataLink.ParityDataLinkLayer.ScanNext` | ParityDataLinkLayer.java:152-170 | one pass of the extraction loop moves the iterator forward; a stop tag drains the buffer and ends with the bytes collected, a trailing escape tag ends with no frame, and otherwise what is left of the scan is unchanged |
| `DataLink.ParityDataLinkLayer.ExtractFrame` | ParityDataLinkLayer.java:140-180 | the extraction loop, from just after the first start tag, ends as `Deframe` says |
| `DataLink.ParityDataLinkLayer.HandleAckReceivedBySender` | ParityDataLinkLayer.java:290-296 | records the ACK's frame number and clears the latest NACK to -1 |
| `DataLink.ParityDataLinkLayer.HandleNackReceivedBySender` | ParityDataLinkLayer.java:281-288 | records the NACK's frame number and clears the latest ACK to -1 |
| `DataLink.ParityDataLinkLayer.FinishFrameSendStep` | ParityDataLinkLayer.java:190-211 | the sending frame number flips when the latest ACK matches it; otherwise the last frame sent is retransmitted unchanged and the number is kept; the link invariant is kept |
| `DataLink.ParityDataLinkLayer.RecomputeParity` | ParityDataLinkLayer.java:218-224 | the loop over the bytes after the parity byte returns their parity |
| `DataLink.ParityDataLinkLayer.FinishFrameReceive` | ParityDataLinkLayer.java:214-279 | corrupted or unknown-kind frames get exactly one NACK with the received frame number and nothing else changes; ACK/NACK frames set one record and clear the other, with nothing sent or delivered; a DATA frame gets exactly one ACK, and is delivered once with the expected frame number flipped exactly when its number is the expected one; the link invariant is kept |
| `DataLink.DeliverOneFrame` | ParityDataLinkLayer.java:272-278 | a DATA frame from a fresh sender is delivered once by a fresh receiver, which answers with one ACK for frame 0 and then expects frame 1 |
| `DataLink.AckAdvancesSender` | ParityDataLinkLayer.java:195-197 | after an ACK for the outstanding frame, the send step moves on to frame 1 and retransmits nothing |
| `DataLink.DuplicateDeliveredOnce` | ParityDataLinkLayer.java:272-278 | the same DATA frame arriving twice is delivered once and acknowledged twice |
| `DataLink.ReceiveIntactDataFrame` | ParityDataLinkLayer.java:265-278 | an intact DATA frame in the buffer is answered with one ACK carrying its number; it is delivered, and the expected number flipped, exactly when its number is the expected one; the buffer ends empty, and the ACK/NACK records and the sender's fields are unchanged |
| `DataLink.ReceiveIntactControlFrame` | ParityDataLinkLayer.java:246-256 | an intact ACK or NACK frame in the buffer sets that record to its number and clears the other; nothing is sent or delivered and the buffer ends empty |
| `DataLink.CorruptedFrameNacked` | ParityDataLinkLayer.java:230-243 | a DATA frame with any one bit inverted is not delivered and gets one NACK carrying the frame number as received |
| `DataLink.NackTriggersRetransmission` | ParityDataLinkLayer.java:198-204 | after a NACK for the outstanding frame, the send step retransmits that frame's exact bytes and keeps its frame number |

## Findings

| source | as written | input that shows it | evidently intended | confidence | as-written member | corrected member |
|---|---|---|---|---|---|---|
| ParityDataLinkLayer.java:182-188 | `cleanBufferUpTo` loops while `i != end`. `i` is a new iterator and `end` is the caller's, so they are never the same object, and the whole receive buffer is emptied. | a buffer holding `EncodeFrame(0, 0, [0x41]) + EncodeFrame(1, 0, [0x42])`: the first call returns the first frame and the second frame's bytes are gone | remove only the processed bytes, up to and including the stop tag (comment at line 147), and keep what follows for the next call | high; not executed | `Framing.DrainLosesFollowingFrame` | `Framing.IntendedKeepsFollowingFrame` |
| ParityDataLinkLayer.java:165-167 | At a start tag mid-frame, `cleanBufferUpTo` empties the whole buffer, including the bytes not yet scanned. With a `LinkedList` the scanning iterator then finds no next byte and `processFrame` returns null. | `garbage { p1 { p2 }`, with no start tag in the garbage: no frame is returned and p2 is lost with the buffer | drop what precedes the second start tag and go on to return p2 (comment at lines 149-150) | high; not executed | `Framing.DeframeResyncExample` | `Framing.IntendedResync` |

The class `ParityDataLinkLayer` keeps the drain as written. The corrected
deframer, `DeframeIntended`, is a function beside it.

## Left out

- Logging: the `System.out` output and the `debug` flag (lines 233,
  239-240, 269-271, 367-371) are not modelled.
- `transmit` and `client.receive` are not real I/O here. They are the logs
  `transmitted` and `delivered`.
- FinishFrameSendStep: only one decision of `finishFrameSend` is modelled.
  The recursive call after a retransmission (lines 203 and 209) ends only
  when another thread changes `latestAckReceived`.
- FinishFrameReceive: requires at least three bytes. On a shorter frame
  the Java `remove()` calls throw, and that exception is not modelled. Its
  parity test uses `Parity`, an unbounded count of set bits; the 32-bit
  `int` wrap of `recomputedParity` (lines 220-224) is not modelled, see
  `RecomputeParity` below.
- RecomputeParity: the counter is an unbounded integer, so Java's 32-bit
  `int` wrap of `recomputedParity` (lines 220-222) is not modelled. The
  wrap needs more than 2^31 - 1 set bits after the parity byte, that is at
  least 2^28 bytes of content. The wrapped sum is negative exactly when
  the count modulo 2^32 lies in [2^31, 2^32); then `%=` at line 224 keeps
  the sign and gives -1 for an odd count, and an intact frame with parity
  bit 1 is NACKed where the model accepts it. Elsewhere, from 2^32 set
  bits on included, the wrapped sum is not negative and line 238 judges
  as the model does. The sender is not
  affected: the wrap keeps the count's evenness, and the test
  `parityVal%2 == 0` at line 59 is right for negative values too.
- Classify: its parity test compares with `Parity`, the unbounded count,
  where Java compares with the wrapped `recomputedParity` described under
  `RecomputeParity`. Both agree while the content has at most 2^31 - 1 set
  bits.
- FramedContentAccepted: holds for frames whose content has at most
  2^31 - 1 set bits. It rests on the unbounded count of `RecomputeParity`
  and `Classify`; with a larger odd count in the negative range the Java
  receiver NACKs the frame.
- DeliverOneFrame: the delivery and the ACK for frame 0 rest on the
  unbounded parity count, so they hold in Java only for payloads with at
  most 2^31 - 1 set bits in the frame content.
- DuplicateDeliveredOnce: the one delivery and the two ACKs rest on the
  unbounded parity count, so they hold in Java only for payloads with at
  most 2^31 - 1 set bits in the frame content.
- ReceiveIntactDataFrame: the ACK, and the delivery of a frame with the
  expected number, rest on the unbounded parity count, so they hold in
  Java only for frames whose content has at most 2^31 - 1 set bits.
- `DataLinkLayer` is not part of this model: the code that appends
  arriving bytes to `receiveBuffer`, and the send path that calls
  `createFrame`, sets `latestFrameSent` and calls `finishFrameSend`. The
  client methods assign those fields directly.
- Iterators after a foreign removal: only the two behaviours named by
  `scanSurvivesDrain` are modelled. An iterator that throws
  `ConcurrentModificationException` there is not.
- Two one-bit errors in the same byte: `TwoFlipsInDistinctBytesUndetected`
  covers only errors in two different bytes.
