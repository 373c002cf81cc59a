# A verified model of the cnp TCP socket core

This project models, in Dafny, the core of a small TCP implementation on top
of a simulated IP layer (the `nl.vu.cs.cn` package): the segment codec
`TcpSegment`, the socket's handshake (`connect`, `accept`), its checksum
(`checksumFor`) and validity test (`isValid`), the state checks of `read`,
`write` and `close`, and the utilities `InfiniteByteBuffer`,
`Logs.bytesToHex` and `Bits.reverseOrder`.

Modules, one per source concern:

- `Bytes` (bytes.dfy): Java's fixed-width values as unsigned bit patterns,
  32-bit wrap-around, the `(short)` cast, and the big-endian accessors of
  `java.nio.ByteBuffer`.
- `Outcomes` (bytes.dfy): the Java exceptions the code raises
  (`checkState`, `checkNotNull`, negative array size, index out of bounds),
  as values.
- `Segments` (tcp_segment.dfy): the 148-byte segment buffer as a class
  over an `array`. Each getter and setter is tied to a `Header` value.
  The flag tests are defined on bit-vectors.
- `Checksum` (checksum.dfy): `checksumFor` and `isValid` as functions of
  the buffer contents, next to the iterated-fold checksum the tests use as
  their reference.
- `Sockets` (socket.dfy): the `Socket` class. Every packet handed to
  `ip_send` is appended to the field `sent`. The packets `ip_receive` would
  deliver are passed in as an `inbox`. A call that runs out of inbox ends
  `Blocked`, which is where the Java call would block for ever.
- `InfiniteByteBuffers` (infinite_byte_buffer.dfy): the growable buffer as
  a class whose `putArray` doubles `length` and reallocates.
- `Logs` (logs.dfy) and `Bits` (bits.dfy): the two utilities.

Several defects of the code are stated as proved lemmas rather than
corrected. Each describes the code as written:

- `checksumFor` folds the carry only once.
- `isValid` has its length test inverted.
- `accept` expects an acknowledgment number one higher than the one
  `connect` sends.
- `bytesToHex` indexes its output from 0 only when `offset` is 0.
- `reverseOrder` shifts one byte too far.

## Model

| member | source | states |
|---|---|---|
| Bytes.Add32 | cn/cn/src/nl/vu/cs/cn/Socket.java:59 | Java `int` addition: the exact sum when it fits in 32 bits, the sum less 2^32 otherwise |
| Bytes.ToShort | cn/cn/src/nl/vu/cs/cn/Socket.java:48 | the `(short)` cast keeps every value that already fits in 16 bits |
| Bytes.PutByte | cn/cn/src/nl/vu/cs/cn/TcpSegment.java:89-91 | `put(i, v)` stores `v` at `i` and changes no other byte |
| Bytes.PutShort | cn/cn/src/nl/vu/cs/cn/TcpSegment.java:72-74 | `putShort` is read back by `getShort` at the same index and changes no byte outside the two it writes |
| Bytes.PutInt | cn/cn/src/nl/vu/cs/cn/TcpSegment.java:80-83 | `putInt` changes no byte outside the four it writes |
| Bytes.PutGetShort | cn/cn/src/nl/vu/cs/cn/TcpSegment.java:21-23 | writing back the short `getShort` reads changes nothing, so with `PutShort` the two are inverse |
| Bytes.PutGetInt | cn/cn/src/nl/vu/cs/cn/TcpSegment.java:29-31 | writing back the int `getInt` reads changes nothing, so with `GetPutInt` the two are inverse |
| Bytes.GetPutInt | cn/cn/src/nl/vu/cs/cn/TcpSegment.java:29-31 | `getInt` reads back the value `putInt` stored at the same index |
| Bytes.PutShortUndo | cn/cn/src/nl/vu/cs/cn/Socket.java:217-218 | writing back the short a field held before a `putShort` restores the bytes, which is how the checksum sent relates to the segment before `setChecksum` |
| Bits.ReverseOrder | cn/cn/src/nl/vu/cs/cn/util/Bits.java:5-10 | byte by byte: input byte 3 lands in result bytes 0 and 1, byte 1 in byte 2, byte 0 in byte 3; input byte 2 is lost |
| Bits.ReverseBytes | cn/cn/src/nl/vu/cs/cn/util/Bits.java:5-10 | the byte reversal the method is named for: result byte k is input byte 3-k |
| Bits.ReverseOrderIsReversalIff | cn/cn/src/nl/vu/cs/cn/util/Bits.java:5-10 | `reverseOrder` equals a true byte reversal exactly when the two high bytes of the input are equal |
| Bits.ReverseOrderNotInvolution | cn/cn/src/nl/vu/cs/cn/util/Bits.java:5-10 | applying `reverseOrder` twice to 0x01020304 does not give it back |
| Logs.HexShape | cn/cn/src/nl/vu/cs/cn/util/Logs.java:8-19 | the rendering of n bytes has 3n-1 characters: byte j's high and low digits at 3j and 3j+1, a space at 3j+2 between bytes |
| Logs.ShapeIsHex | cn/cn/src/nl/vu/cs/cn/util/Logs.java:10-17 | conversely, any string with that layout is the rendering |
| Logs.HexDigitsOnly | cn/cn/src/nl/vu/cs/cn/util/Logs.java:7-19 | every non-separator character is one of `0123456789ABCDEF` and every separator is a space |
| Logs.BytesToHex | cn/cn/src/nl/vu/cs/cn/util/Logs.java:8-19 | length < 1 fails allocating the array; an offset other than 0, or a length past the input, fails with an index out of bounds; otherwise the result is the rendering of the first `length` bytes, 3·length-1 characters long |
| InfiniteByteBuffers.Doubled | cn/cn/src/nl/vu/cs/cn/util/InfiniteByteBuffer.java:51 | doubling never shrinks the length and at least doubles it once applied |
| InfiniteByteBuffers.Grown | cn/cn/src/nl/vu/cs/cn/util/InfiniteByteBuffer.java:50-52 | the grown length exceeds `index + srcLength` and is never below the old length; the length is unchanged when the write already fits |
| InfiniteByteBuffers.GrownIsLeastDoubling | cn/cn/src/nl/vu/cs/cn/util/InfiniteByteBuffer.java:50-52 | the grown length is `len·2^k` for exactly the least `k` whose doubling exceeds `index + srcLength`, in both directions |
| InfiniteByteBuffers.Pad | cn/cn/src/nl/vu/cs/cn/util/InfiniteByteBuffer.java:52 | `Arrays.copyOf` to a larger size keeps every old byte and fills the rest with zeros |
| InfiniteByteBuffers.Overwrite | cn/cn/src/nl/vu/cs/cn/util/InfiniteByteBuffer.java:54 | an arraycopy destination holds the copied bytes at the target range and its old bytes elsewhere |
| InfiniteByteBuffers.InfiniteByteBuffer.WithCapacity | cn/cn/src/nl/vu/cs/cn/util/InfiniteByteBuffer.java:10-15 | a zero-filled buffer whose `length` is the initial size |
| InfiniteByteBuffers.InfiniteByteBuffer.Array | cn/cn/src/nl/vu/cs/cn/util/InfiniteByteBuffer.java:17-19 | `array()` hands out the backing array itself |
| InfiniteByteBuffers.InfiniteByteBuffer.Get | cn/cn/src/nl/vu/cs/cn/util/InfiniteByteBuffer.java:21-23 | the byte read at `index` is the one whose write there leaves the contents unchanged |
| InfiniteByteBuffers.InfiniteByteBuffer.GetShort | cn/cn/src/nl/vu/cs/cn/util/InfiniteByteBuffer.java:25-27 | the short read is the one whose big-endian write at `index` leaves the contents unchanged |
| InfiniteByteBuffers.InfiniteByteBuffer.GetInt | cn/cn/src/nl/vu/cs/cn/util/InfiniteByteBuffer.java:29-31 | the int read is the one whose big-endian write at `index` leaves the contents unchanged |
| InfiniteByteBuffers.InfiniteByteBuffer.GetArray | cn/cn/src/nl/vu/cs/cn/util/InfiniteByteBuffer.java:33-35 | the destination receives the buffer bytes from `index` at `dstOffset` and keeps its other bytes, also when it is the backing array |
| InfiniteByteBuffers.InfiniteByteBuffer.Put | cn/cn/src/nl/vu/cs/cn/util/InfiniteByteBuffer.java:37-39 | the new contents are the old with one byte replaced |
| InfiniteByteBuffers.InfiniteByteBuffer.PutShort | cn/cn/src/nl/vu/cs/cn/util/InfiniteByteBuffer.java:41-43 | the new contents are the old with a big-endian short written at `index` |
| InfiniteByteBuffers.InfiniteByteBuffer.PutInt | cn/cn/src/nl/vu/cs/cn/util/InfiniteByteBuffer.java:45-47 | the new contents are the old with a big-endian int written at `index` |
| InfiniteByteBuffers.InfiniteByteBuffer.PutArray | cn/cn/src/nl/vu/cs/cn/util/InfiniteByteBuffer.java:49-55 | `length` becomes the least doubling past the last index written and stays the size of the array; the contents are the old ones zero-padded to it with the source range written at `index`; the array is replaced exactly when the write did not fit |
| InfiniteByteBuffers.InfiniteByteBuffer.Grow | cn/cn/src/nl/vu/cs/cn/util/InfiniteByteBuffer.java:50-53 | the doubling loop ends at the grown length, and the new array holds the old bytes followed by zeros |
| InfiniteByteBuffers.InfiniteByteBuffer.CopyIn | cn/cn/src/nl/vu/cs/cn/util/InfiniteByteBuffer.java:54 | the copy writes the source range, as it was before the copy, over the buffer at `index` |
| InfiniteByteBuffers.PutThenGetShort | cn/cn/src/nl/vu/cs/cn/util/InfiniteByteBuffer.java:41-43 | `getShort` after `putShort` at the same index returns the value put |
| InfiniteByteBuffers.PutThenGetInt | cn/cn/src/nl/vu/cs/cn/util/InfiniteByteBuffer.java:45-47 | `getInt` after `putInt` at the same index returns the value put |
| Segments.HeaderOfPrefix | cn/cn/src/nl/vu/cs/cn/TcpSegment.java:21-43 | the getters read only the first 20 bytes |
| Segments.DecodeEncode | cn/cn/src/nl/vu/cs/cn/TcpSegment.java:72-99 | after the seven setters, the getters return every value set; byte 12, the urgent pointer and the data keep their old bytes |
| Segments.DecodeAgreesOnHeader | cn/cn/src/nl/vu/cs/cn/TcpSegment.java:9-15 | after a packet covering the header is copied in, the getters see the packet's header whatever the buffer held |
| Segments.SignExtendLowByte | cn/cn/src/nl/vu/cs/cn/TcpSegment.java:50 | sign-extending the flags byte to `int` changes no bit under a one-byte mask |
| Segments.NoneOfMask | cn/cn/src/nl/vu/cs/cn/TcpSegment.java:53 | `(f \| ~n) == ~n` holds exactly when no bit of `n` is set in `f` |
| Segments.MaskTestMeaning | cn/cn/src/nl/vu/cs/cn/TcpSegment.java:52-53 | the mask test holds exactly when all bits of the first mask and none of the second are set |
| Segments.HasFlags | cn/cn/src/nl/vu/cs/cn/TcpSegment.java:49-54 | definition of `hasFlags` on the sign-extended flags byte; its meaning is `HasFlagsMeaning` and `HasFlagsOnByte` |
| Segments.HasFlag | cn/cn/src/nl/vu/cs/cn/TcpSegment.java:56-70 | definition of the single-flag tests; `HasFlagIsHasFlags` ties them to `hasFlags` |
| Segments.HasFlagsMeaning | cn/cn/src/nl/vu/cs/cn/TcpSegment.java:49-54 | `hasFlags` holds exactly when the sign-extended flags have every bit of `allOfMask` and no bit of `noneOfMask` |
| Segments.HasFlagsOnByte | cn/cn/src/nl/vu/cs/cn/TcpSegment.java:49-54 | for masks within one byte, `hasFlags` is the same test on the flags byte itself |
| Segments.HasFlagIsHasFlags | cn/cn/src/nl/vu/cs/cn/TcpSegment.java:56-70 | each single-flag test agrees with `hasFlags` requiring that one flag and forbidding none |
| Segments.FlagBits | cn/cn/src/nl/vu/cs/cn/TcpSegment.java:130-136 | SYN+ACK carries SYN and ACK but neither FIN nor PUSH; ACK alone has no SYN; SYN alone has no ACK |
| Segments.TcpSegment.constructor | cn/cn/src/nl/vu/cs/cn/TcpSegment.java:138-142 | a fresh segment has a zero buffer of 148 bytes, length 20 and an all-zero header |
| Segments.TcpSegment.FromByteArray | cn/cn/src/nl/vu/cs/cn/TcpSegment.java:9-15 | the packet's first `length` bytes are copied over the buffer, unless the packet is the buffer itself; the lengths are recorded |
| Segments.TcpSegment.ToByteArray | cn/cn/src/nl/vu/cs/cn/TcpSegment.java:17-19 | the whole backing array is shared, not copied |
| Segments.TcpSegment.GetFromPort | cn/cn/src/nl/vu/cs/cn/TcpSegment.java:21-23 | the source port read is the one whose big-endian write at byte 0 leaves the buffer unchanged |
| Segments.TcpSegment.GetToPort | cn/cn/src/nl/vu/cs/cn/TcpSegment.java:25-27 | the destination port read is the one whose write at byte 2 leaves the buffer unchanged |
| Segments.TcpSegment.GetSeq | cn/cn/src/nl/vu/cs/cn/TcpSegment.java:29-31 | the sequence number read is the one whose big-endian write at byte 4 leaves the buffer unchanged |
| Segments.TcpSegment.GetAck | cn/cn/src/nl/vu/cs/cn/TcpSegment.java:33-35 | the acknowledgment number read is the one whose write at byte 8 leaves the buffer unchanged |
| Segments.TcpSegment.GetWindow | cn/cn/src/nl/vu/cs/cn/TcpSegment.java:37-39 | the window read is the one whose write at byte 14 leaves the buffer unchanged |
| Segments.TcpSegment.GetChecksum | cn/cn/src/nl/vu/cs/cn/TcpSegment.java:41-43 | the checksum read is the one whose write at byte 16 leaves the buffer unchanged |
| Segments.TcpSegment.Flags | cn/cn/src/nl/vu/cs/cn/TcpSegment.java:50 | the flags byte read is the one whose write at byte 13 leaves the buffer unchanged |
| Segments.TcpSegment.GetData | cn/cn/src/nl/vu/cs/cn/TcpSegment.java:45-47 | `dst` receives the `dataLength` data bytes at `dstOffset` and keeps its other bytes |
| Segments.TcpSegment.SetData | cn/cn/src/nl/vu/cs/cn/TcpSegment.java:101-105 | the data area starts with the source bytes, the rest of the buffer is kept, the header fields do not change, and the lengths are set |
| Segments.TcpSegment.SetFromPort | cn/cn/src/nl/vu/cs/cn/TcpSegment.java:72-74 | only the source port of the header changes, to the value given |
| Segments.TcpSegment.SetToPort | cn/cn/src/nl/vu/cs/cn/TcpSegment.java:76-78 | only the destination port changes |
| Segments.TcpSegment.SetSeq | cn/cn/src/nl/vu/cs/cn/TcpSegment.java:80-83 | only the sequence number changes |
| Segments.TcpSegment.SetAck | cn/cn/src/nl/vu/cs/cn/TcpSegment.java:85-87 | only the acknowledgment number changes |
| Segments.TcpSegment.SetFlags | cn/cn/src/nl/vu/cs/cn/TcpSegment.java:89-91 | only the flags byte changes |
| Segments.TcpSegment.SetWindowSize | cn/cn/src/nl/vu/cs/cn/TcpSegment.java:93-95 | only the window changes |
| Segments.TcpSegment.SetChecksum | cn/cn/src/nl/vu/cs/cn/TcpSegment.java:97-99 | only the checksum field changes |
| Segments.SetThenGetData | cn/cn/src/nl/vu/cs/cn/TcpSegment.java:101-105 | `getData` after `setData` hands back exactly the bytes stored and leaves the rest of the destination alone |
| Checksum.ChecksumOf | cn/cn/src/nl/vu/cs/cn/Socket.java:171-195 | definition of `checksumFor` on the buffer contents; `Socket.ChecksumFor` computes it, `RoundTripSingleFold` and `SecondCarryBreaksSingleFold` state what it achieves |
| Checksum.IsValid | cn/cn/src/nl/vu/cs/cn/Socket.java:197-199 | definition of `isValid`; `IsValidRejectsFullSegments` and `IsValidAcceptsEmptySegment` characterise it |
| Checksum.PseudoTermDropsCarry | cn/cn/src/nl/vu/cs/cn/Socket.java:175-178 | each pseudo-header term is the sum of the value's two 16-bit halves, less 0x10000 when that sum carries |
| Checksum.OddTermPadsHighByte | cn/cn/src/nl/vu/cs/cn/Socket.java:185-187 | the odd trailing byte counts as `b·256` exactly when it is below 0x80 |
| Checksum.WordSumPutShort | cn/cn/src/nl/vu/cs/cn/Socket.java:181-183 | overwriting one aligned word changes the word sum by the difference when the word is summed, and not at all otherwise |
| Checksum.WordSumPrefix | cn/cn/src/nl/vu/cs/cn/Socket.java:181-183 | the word sum reads only the bytes it sums |
| Checksum.SegmentSumWithChecksum | cn/cn/src/nl/vu/cs/cn/Socket.java:181-187 | with a zero checksum field, storing `c` there adds `c` to the segment sum |
| Checksum.SegmentSumReplaceChecksum | cn/cn/src/nl/vu/cs/cn/Socket.java:181-187 | storing `c` in the checksum field replaces its old word by `c` in the segment sum |
| Checksum.ChecksumReadsPrefix | cn/cn/src/nl/vu/cs/cn/Socket.java:171-199 | `checksumFor` and `isValid` depend only on the first `length` bytes |
| Checksum.RoundTripSingleFold | cn/cn/src/nl/vu/cs/cn/Socket.java:189-194 | when the raw sum needs no second carry, storing the checksum in a zeroed field makes the checksum of the result 0 |
| Checksum.SecondCarryBreaksSingleFold | cn/cn/src/nl/vu/cs/cn/Socket.java:189-190 | for a raw sum of 0x1ffff, `checksumFor` gives 0xffff before and after it is stored, while the iterated fold gives 0xfffe and then 0 |
| Checksum.SingleFoldRoundTripFails | cn/cn/src/nl/vu/cs/cn/Socket.java:189-190 | a concrete 20-byte segment on which the round trip fails for `checksumFor` and holds for the iterated fold |
| Checksum.ResentChecksumEchoesStaleField | cn/cn/src/nl/vu/cs/cn/Socket.java:217-218 | sending a segment whose checksum field still holds `c` gives the receiver a checksum of `c`, not 0, when no sum needs a second carry |
| Checksum.FoldAllProperties | cn/cntest/src/nl/vu/cs/cn/ChecksumCalculationTest.java:220-222 | the iterated fold ends at or below 0xffff, keeps the value modulo 0xffff, and is non-zero for a non-zero sum |
| Checksum.FoldedComplementCompletes | cn/cntest/src/nl/vu/cs/cn/ChecksumCalculationTest.java:220-225 | adding the complement of the folded sum folds to 0xffff |
| Checksum.RoundTripFolded | cn/cntest/src/nl/vu/cs/cn/ChecksumCalculationTest.java:201-227 | with the tests' iterated fold, storing the checksum in a zeroed field always makes the checksum 0 |
| Checksum.IsValidRejectsFullSegments | cn/cn/src/nl/vu/cs/cn/Socket.java:197-199 | `isValid` accepts only segments shorter than a header, in both directions |
| Checksum.SentSegmentRejected | cn/cn/src/nl/vu/cs/cn/Socket.java:197-199 | a segment whose checksum round trip succeeds is still rejected when it carries its header |
| Checksum.IsValidAcceptsEmptySegment | cn/cn/src/nl/vu/cs/cn/Socket.java:197-199 | for any buffer and any addresses and protocol whose pseudo-header terms sum without a carry, a segment of length 0 passes `isValid` exactly when those terms sum to 0xffff |
| Checksum.IsValidAcceptsEmptyExample | cn/cn/src/nl/vu/cs/cn/Socket.java:197-199 | one such case: addresses 0xfff9 and 0 with protocol 6 |
| Sockets.AdmitsOverlay | cn/cn/src/nl/vu/cs/cn/Socket.java:223-228 | `isValid` on the segment a packet is copied into depends only on the packet's own bytes |
| Sockets.AdmittedPacketsAreShort | cn/cn/src/nl/vu/cs/cn/Socket.java:223-228 | every packet `receiveSegment` returns on is shorter than a TCP header |
| Sockets.SynAckAccepted | cn/cn/src/nl/vu/cs/cn/Socket.java:59 | definition of `connect`'s test on a reply; `SynAckPassesConnect` and `ConnectNeedsFlagsInReply` are about it |
| Sockets.AckAccepted | cn/cn/src/nl/vu/cs/cn/Socket.java:107 | definition of `accept`'s test on a reply; `ConnectAckFailsAccept` and `AcceptAndRfc793Disjoint` are about it |
| Sockets.SynAckPassesConnect | cn/cn/src/nl/vu/cs/cn/Socket.java:59 | the SYN-ACK `accept` sends for a SYN passes `connect`'s test |
| Sockets.ConnectAckFailsAccept | cn/cn/src/nl/vu/cs/cn/Socket.java:103-107 | the ACK `connect` sends is the one RFC 793 expects, yet `accept`'s test rejects it |
| Sockets.AcceptAndRfc793Disjoint | cn/cn/src/nl/vu/cs/cn/Socket.java:103-107 | no final ACK passes both `accept`'s test and the RFC 793 one |
| Sockets.ConnectNeedsFlagsInReply | cn/cn/src/nl/vu/cs/cn/Socket.java:57-59 | a reply too short to reach the flags byte leaves the SYN's flags in the buffer, so `connect`'s test fails on it |
| Sockets.Socket.constructor | cn/cn/src/nl/vu/cs/cn/Socket.java:20-32 | a new socket is CLOSED, has sent nothing and holds a fresh zero segment |
| Sockets.Socket.ChecksumFor | cn/cn/src/nl/vu/cs/cn/Socket.java:171-195 | the loop computes the checksum of the pseudo-header and the first `length` bytes, with one carry fold |
| Sockets.Socket.IsValid | cn/cn/src/nl/vu/cs/cn/Socket.java:197-199 | true exactly when the segment is shorter than a header and its checksum is 0 |
| Sockets.Socket.SendSegment | cn/cn/src/nl/vu/cs/cn/Socket.java:201-220 | the checksum of the segment as it stands is stored in its checksum field, no other header field changes, and one packet is appended to `sent` with the addresses, protocol, id 1, the array and the length |
| Sockets.Socket.ReceiveSegment | cn/cn/src/nl/vu/cs/cn/Socket.java:223-228 | packets are copied in until `isValid` accepts one; the buffer is the overlay of the packets taken; received exactly when the last taken is admitted; none before it is admitted; an unreceived call used up the inbox |
| Sockets.Socket.ReceiveOne | cn/cn/src/nl/vu/cs/cn/Socket.java:224-227 | one delivered packet is copied over the buffer, and the result is whether `isValid` admits it |
| Sockets.Socket.SetControlFields | cn/cn/src/nl/vu/cs/cn/Socket.java:50-54 | the header gets the local and remote ports, the sequence number, optionally the acknowledgment, the flags and window 1; byte 12, the checksum field, the urgent pointer and the data keep their bytes, and nothing else of the socket changes |
| Sockets.Socket.SendControl | cn/cn/src/nl/vu/cs/cn/Socket.java:95-101 | exactly one packet is sent, carrying those header fields, with byte 12, the urgent pointer and the data as the segment held them; the checksum it carries is `checksumFor` of the packet with the old checksum field put back in place, since nothing clears that field before the sum |
| Sockets.Socket.Connect | cn/cn/src/nl/vu/cs/cn/Socket.java:43-75 | throws IllegalState and changes nothing unless CLOSED; otherwise sends a SYN with the given sequence number, then tests the first admitted reply: true exactly when it passes `connect`'s test, and then ESTABLISHED with the reply's sequence number recorded and an ACK sent for it; false leaves the socket CLOSED with its remote sequence number unchanged and the reply overlaid on the SYN sent; no admitted reply means blocked, with the whole inbox received into the segment and nothing sent after the SYN |
| Sockets.Socket.AwaitSynAck | cn/cn/src/nl/vu/cs/cn/Socket.java:57-74 | the reply tested is the one the receive delivered, and the outcome is `connect`'s test on it; unless the test passes, the remote sequence number, the state and the packets sent are unchanged and the buffer holds the packets received overlaid on it, the whole inbox when blocked |
| Sockets.Socket.AnswerSynAck | cn/cn/src/nl/vu/cs/cn/Socket.java:59-71 | the result is `connect`'s test on the buffer; on success the sequence number is recorded, an ACK for it is sent and the state becomes ESTABLISHED; on failure nothing changes |
| Sockets.Socket.Accept | cn/cn/src/nl/vu/cs/cn/Socket.java:83-113 | throws IllegalState and changes nothing unless CLOSED; otherwise the packets taken split into rounds from the start of the inbox and the original buffer: every round but the last answered the first SYN left and received a reply that failed `accept`'s test; exactly the SYN-ACKs of the rounds were sent, in order, each with the given sequence number; the last round answered a SYN exactly when one is left, with its header taken from the overlay up to it, and otherwise blocks with none left; once answered, the remote port and sequence number are the SYN's, the local one is one past the given one, the SYN-ACK acknowledges the SYN's sequence number plus one, and the buffer is the overlay, on the SYN-ACK's bytes, of the packets after the SYN; it returns exactly when the last of them is the first admitted, and then the socket is ESTABLISHED and that reply passes `accept`'s test; it blocks otherwise, with no packet after the SYN admitted and the inbox used up |
| Sockets.Socket.AcceptRound | cn/cn/src/nl/vu/cs/cn/Socket.java:87-107 | a round from `start` sends exactly one SYN-ACK when it answers a SYN and nothing otherwise; it answers none exactly when no admitted packet with SYN set is left, and then blocks; otherwise the SYN answered is the first one left, with its header from the overlay, and the receive after the SYN-ACK takes packets up to the first admitted one, which is the reply tested: the round passes exactly when that reply passes `accept`'s test and then the socket is ESTABLISHED; with no admitted packet left it blocks |
| Sockets.Socket.AwaitSyn | cn/cn/src/nl/vu/cs/cn/Socket.java:87-89 | the buffer is the overlay of the packets taken; the inner loop stops exactly after the first admitted packet whose overlay has SYN set, whose header is the one returned, and otherwise takes the whole inbox, none of which holds a SYN |
| Sockets.Socket.AwaitSynStep | cn/cn/src/nl/vu/cs/cn/Socket.java:87-89 | one pass of the inner loop: the buffer becomes the overlay of all packets taken so far; it stops exactly when the last packet taken is admitted with SYN set, which is then the first SYN; otherwise none taken so far holds one, and an unreceived pass used up the inbox |
| Sockets.Socket.ReplyToSyn | cn/cn/src/nl/vu/cs/cn/Socket.java:91-107 | after a SYN: exactly one packet is sent, answering the SYN in the segment; the remote port and sequence number are the SYN's and the local one is one past the given one; the buffer is the overlay of the packets received after it on the SYN-ACK's bytes; the reply is received exactly when the last packet taken is the first admitted; it passes exactly when `accept`'s test holds, and only then is the socket ESTABLISHED |
| Sockets.Socket.AnswerSyn | cn/cn/src/nl/vu/cs/cn/Socket.java:91-103 | the remote port and sequence number become the SYN's, one packet is sent that carries a SYN-ACK from the local port to the SYN's port with the given sequence number and acknowledges the SYN's sequence number plus one, and the local sequence number ends one past the given one |
| Sockets.Socket.AwaitReply | cn/cn/src/nl/vu/cs/cn/Socket.java:105-107 | the buffer is the overlay of the packets taken; received exactly when the last of them is the first admitted, blocked with the inbox used up and none admitted otherwise; a received reply passes exactly when it comes from the remote port, has SYN clear and ACK set, and acknowledges the local sequence number plus one |
| Sockets.LastPacketSyn | cn/cn/src/nl/vu/cs/cn/Socket.java:87-89 | the packet at `k` stops the inner loop exactly when it is admitted and the overlay up to it has SYN set |
| Sockets.ReceivedChunk | cn/cn/src/nl/vu/cs/cn/Socket.java:223-228 | receiving `n` packets after the first `c` leaves the overlay of all `c + n`, on any starting buffer |
| Sockets.ReceiveChunk | cn/cn/src/nl/vu/cs/cn/Socket.java:87-89 | after one receive inside the inner loop, either its last packet is the first SYN of the whole inbox or no packet taken so far holds one |
| Sockets.RejectedHoldNoSyn | cn/cn/src/nl/vu/cs/cn/Socket.java:87-89 | packets `isValid` rejects never stop the inner loop |
| Sockets.ReplySlices | cn/cn/src/nl/vu/cs/cn/Socket.java:223-228 | a receive over the packets from `c` on that took `n` of them received exactly when its last packet is the first admitted one, and an unreceived one found none admitted |
| Sockets.SynAcksAppend | cn/cn/src/nl/vu/cs/cn/Socket.java:95-101 | a round that sends at most the one SYN-ACK answering a SYN keeps every packet sent since `start` a SYN-ACK with the given sequence number |
| Sockets.Answers | cn/cn/src/nl/vu/cs/cn/Socket.java:101 | the SYN-ACKs the rounds sent, one per round, in round order |
| Sockets.RejectedRoundsExtend | cn/cn/src/nl/vu/cs/cn/Socket.java:86-110 | a round that answered a SYN and whose reply failed `accept`'s test, starting where the earlier rejected rounds left off, is one more rejected round, and the next round starts where it ended with what it left in the buffer |
| Sockets.AnswersAppend | cn/cn/src/nl/vu/cs/cn/Socket.java:101 | one more rejected round adds its SYN-ACK at the end of what was sent |
| Sockets.RejectedRoundsSynAcks | cn/cn/src/nl/vu/cs/cn/Socket.java:95-101 | every rejected round sent a SYN-ACK with the given sequence number |
| Sockets.SentSynAcks | cn/cn/src/nl/vu/cs/cn/Socket.java:95-101 | the rejected rounds' SYN-ACKs, followed by the last round's answer when it sent one, are all SYN-ACKs with the given sequence number |
| Sockets.Socket.AcceptLoop | cn/cn/src/nl/vu/cs/cn/Socket.java:86-110 | the rounds never return false: they end ESTABLISHED with a last round whose reply passed `accept`'s test, or CLOSED with the inbox used up; the rounds before the last are the rejected ones, tiling the inbox from its start and the original buffer, and the packets sent are exactly their SYN-ACKs followed by the last round's; the last round is characterised as in `AcceptRound` |
| Sockets.Handshake | cn/cntest/src/nl/vu/cs/cn/ConnectAcceptTest.java:48-56 | after a connect and an accept that both establish: the client's remote address and port are the server's local ones exactly when connect was given them; the client's remote sequence number differs from the server's local one whenever the SYN-ACK carried the server's initial number; the server's remote address is never set; its remote port and sequence number are the client's local ones exactly when the SYN answered carried them, and that SYN is the first admitted packet with SYN set in the server's last round |
| Sockets.Socket.Read | cn/cn/src/nl/vu/cs/cn/Socket.java:127-134 | a null buffer throws NullPointer, a socket not ESTABLISHED throws IllegalState, otherwise -1 |
| Sockets.Socket.Write | cn/cn/src/nl/vu/cs/cn/Socket.java:147-154 | a null buffer throws NullPointer, a socket not ESTABLISHED throws IllegalState, otherwise -1 |
| Sockets.Socket.Close | cn/cn/src/nl/vu/cs/cn/Socket.java:162-168 | a socket not ESTABLISHED throws IllegalState, otherwise false and no state change |

## Left out

- The IP layer (`IP`, `ip_send`, `ip_receive`) is not part of this model. Sent packets are logged in `sent`. Received packets come from an `inbox` parameter, each delivered in a fresh array. Blocking for ever is the outcome `Blocked`.
- `TCP.getNextSeq`, which `Socket.java` calls at lines 46 and 91, is not declared in `TCP.java`; the only generator there is `getInitSequenceNumber` (TCP.java:46-48), which returns the constant 20051498. The initial sequence number is therefore a parameter of `Connect` and `Accept`, and one value serves every round of `Accept`, where the code calls the generator again in each round.
- `IP.TCP_PROTOCOL` is a constant the socket is given at construction.
- The two `Socket` constructors are empty stubs that leave `ip`, `packet`, `segment` and `state` unset, so `state` starts null and every state check would throw. The model's constructor takes the local address, port and protocol, creates the segment, and starts in CLOSED, the state `connect` and `accept` require.
- `Socket.java` calls `setFrom`, `setTo`, `getFrom` and `setFlags(short)`, which `TcpSegment` does not declare. The model uses `setFromPort`, `setToPort`, `getFromPort` and `setFlags(byte)`.
- `packet.id` is always 1 and is recorded but never read.
- The case where the packet `ip_receive` fills shares the segment's own array is modelled in `FromByteArray` but cannot arise from `Socket`, since delivery uses a fresh array.
- `toString` of `TcpSegment` and `InfiniteByteBuffer` is not modelled (string formatting only).
- Java's signed `byte`, `short` and `int` are kept as unsigned bit patterns. Where the sign matters it is modelled explicitly: `hasFlags` works on the sign-extended flags byte (`SignExtend`), and the odd trailing byte of the checksum keeps its sign extension (`OddTerm`). Elsewhere the code compares the values for equality or masks them.
- Array bounds that Java checks at run time (`System.arraycopy`, `ByteBuffer` indexes, `getData` with a negative `dataLength`) are preconditions, except in `bytesToHex`, where they are results.
- InfiniteByteBuffers.InfiniteByteBuffer.WithCapacity: requires `initialSize >= 0`; with a negative size `ByteBuffer.allocate` throws IllegalArgumentException, which is not modelled.
- Sockets.Socket.ReplyToSyn: the socket becomes ESTABLISHED in the round whose reply passes, rather than after the loop's `break`; nothing runs between the two, so the final state is the same.
- `Socket`'s `localAddress`, `localPort` and `protocol` are fields the code never reassigns after construction, so they are `const` in the model.
- InfiniteByteBuffers.InfiniteByteBuffer.PutArray: requires `length > 0`, because with length 0 the growth loop never ends, and requires `index + srcLength < 2^30`, because it does not model the `int` overflow of `length *= 2`.
- InfiniteByteBuffers.InfiniteByteBuffer.Grow: same bounds as `PutArray`, for the same reasons.
- Null arrays: `Logs.BytesToHex`, `InfiniteByteBuffers.InfiniteByteBuffer.GetArray`, `InfiniteByteBuffers.InfiniteByteBuffer.PutArray`, `Segments.TcpSegment.FromByteArray`, `Segments.TcpSegment.GetData` and `Segments.TcpSegment.SetData` take a non-null `array<uint8>`; the NullPointerException Java throws for a null array there is not modelled (only `Read` and `Write` model a null buffer, because their null check is part of what they promise).
- Logs.BytesToHex: does not model the `int` overflow of `length * 3` for lengths above 715827882, nor that of `offset + length`: with offset 2147483647 and length 1 the loop bound wraps negative, the loop does not run, and the code returns two NUL characters where the model reports an index out of bounds.
- Sockets.Handshake: the two inboxes are independent parameters, since the threads and the IP layer that would carry each socket's packets to the other are not part of this model; the test's equalities are therefore stated conditionally on what the exchanged SYN and SYN-ACK carried.
- Sockets.Socket.Read: the offset and maximum length are ignored, as in the stub. The data transfer the tests expect is not implemented in the code.
- Sockets.Socket.Write: the offset and length are ignored, as in the stub.
- Sockets.Socket.Close: the stub returns false without moving to READ_ONLY or CLOSED, and throws on a CLOSED socket. CloseConnectionTest.java expects true, a state change, and false rather than an exception on a closed socket. The model follows the code.
