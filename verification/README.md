# A verified model of coap-pp

coap-pp is a CoAP server stack without heap allocation. This project models its five
stateful and codec cores in Dafny and proves what they promise: the message codec, block-wise
transfer, the UDP/IP/SLIP transport, the Messenger's retransmission table, and the server
(routing, duplicate detection, observers).

`dafny verify dfyconfig.toml` checks the whole project.

## How it is built

Code that changes things step by step is imperative Dafny: buffers are arrays, the source's
classes are classes with the same fields, and each method's `ensures` ties the new state to a
function of the old one. The theorems are lemmas about those functions and about runs of them.
Read-only spans and string views are sequences of bytes.

| files | contents |
|---|---|
| `Bytes`, `CoapOption`, `Pdu` | fixed-width integers, options and their formats, messages |
| `WireFormat` | the grammar of a datagram: (delta, value) pairs and their only encoding |
| `Serializer`, `Deserializer`, `OptionsIterator` | the bounded encoder, the checked parser, the unchecked iterator, each tied to the grammar |
| `Builder`, `Codec`, `WireBytes` | the stable sort and the builder; round trip and canonicity; datagrams byte for byte, in numbers |
| `Block`, `Download` | block options and sizes; serving a body in windows, and a client that fetches it |
| `Upload`, `UploadReplies`, `UploadSafety`, `UploadDelivery` | the upload state machine and assembler; its answers in numbers; invariants of every run; delivery under repetition and interference |
| `Slip`, `SlipTransport` | SLIP framing and its receive automaton; IPv4/UDP packets, header checksum, streams |
| `Retransmission`, `PendingTable`, `Messenger`, `MessengerRuns` | the timer; the pending table as a value; the class over its pool; conservation and timing over runs |
| `PathMatch`, `RouteSpec` | the segment matcher; what it means, and joining a tail |
| `RingBuffer`, `CoapServer`, `ServerBytes` | the duplicate ring; dispatch, replies and at-most-once execution; requests and replies as texts and bytes |
| `ObserverTable`, `ObserverRuns`, `Observable` | the observer table as a value; liveness probing and the order of Observe values over runs; the class |

## What the code does where its documentation says otherwise, or nothing

- Serializing a decoded message does not always reproduce the datagram: a uint with leading
  zeros or more than four bytes, an empty-format option with a value, or a delta above 65535
  is accepted and comes out different. `Codec.ReproducesExactlyCanonical` gives the exact
  condition, `Codec.LeadingZeroExample` a datagram.
- `PlanBlock2` can answer with a block number of more than 20 bits when it reduces the block
  size far into a body; `Block` values above 24 bits are then refused by any reader.
  `Download.ReadableExactlyWhenNarrow` gives the exact condition on the request and the
  configuration, `Download.WideNumberExample` a request.
- A tick that makes the 32-bit sum of a timer wrap delays a due retransmission.
  `Retransmission.MissesExactlyOnWrap` and `Retransmission.WrapExample`.
- A CON whose first transmission the transport refuses is reported as failed but stays in the
  table and is retransmitted (src/coap_pp/messaging/messenger.cpp:69-75); it is counted as accepted.
  `PendingTable.FailedSendLeavesNoTrace` and `PendingTable.RefusedConIsRetransmitted`.
- `PathTail::CopyTo` leaves the separator out as long as nothing has been written, so a tail
  that starts with an empty segment is joined differently from what its comment says.
  `RouteSpec.CopyToJoinsExactly` gives the exact condition, `RouteSpec.LostSeparatorExample` a tail.
- Forced NON notifications wrap the 8-bit promotion counter. `ObserverRuns.ForcedNonsWrap` and `ObserverRuns.WrapExample`.
- include/coap_pp/server/observable.hpp:130-134 says that no notification ever carries the Observe
  values 0 and 1; after the 24-bit wrap they are carried.
  `ObserverRuns.ReservedValuesExactlyAfterWrap` and `ObserverRuns.ReservedValueExample`.
- The order in which routers are searched is left open by include/coap_pp/server/coap_server.hpp:58-59.
  The code searches the latest mounted one first (src/coap_pp/server/coap_server.cpp:87), and the
  routes of a router in order, as README.md:141 of the repository says; `Server.CoapServer.AddRouter`
  and `Server.CoapServer.Decide` follow the code.

## Model

| member | source | states |
|---|---|---|
| CoapOption.UintEncodedLength | src/coap_pp/pdu/serialize.cpp:18-24 | the thresholds give the length of the shortest big-endian form |
| CoapOption.DecodeUint | include/coap_pp/pdu/option.hpp:37-43 | the loop computes the 32-bit shift register over the bytes |
| CoapOption.UintRoundTrip | src/coap_pp/pdu/serialize.cpp:92-105 | a uint's encoding is minimal and decodes to the uint (section 3.2 of RFC 7252) |
| CoapOption.UintReencode | include/coap_pp/pdu/option.hpp:37-43 | decoding and encoding again reproduces exactly the minimal forms; every other form gets strictly shorter |
| WireFormat.ScanEncoded | src/coap_pp/pdu/deserialize.cpp:19-66 | every legal option list, followed by nothing or a marker, is read back as that list |
| WireFormat.ScanCanonical | src/coap_pp/pdu/deserialize.cpp:19-66 | whatever a scan accepts is a legal option list in its only encoding |
| WireFormat.OptionsInjective | src/coap_pp/pdu/option_field.hpp:31-47 | no two option lists have the same bytes |
| WireFormat.TakeEncoded | src/coap_pp/pdu/option_field.hpp:28-73 | extension fields and values of one option are read back and its header byte is never the payload marker |
| WireFormat.FieldCanonical | src/coap_pp/pdu/option_field.hpp:52-73 | the biases 13 and 269 leave each delta and length only one encoding |
| Serializer.WriteByte | src/coap_pp/pdu/option_field.hpp:21-26 | appends one byte exactly when there is room |
| Serializer.EncodeExtField | src/coap_pp/pdu/option_field.hpp:31-47 | writes the extension bytes and yields the nibble of the grammar, exactly when there is room |
| Serializer.WriteUint | src/coap_pp/pdu/serialize.cpp:92-105 | the shifting loop writes the minimal form, exactly when there is room |
| Serializer.SerializeOption | src/coap_pp/pdu/serialize.cpp:54-121 | one turn of the option loop appends the option's encoding, exactly when there is room |
| Serializer.WriteOptions | src/coap_pp/pdu/serialize.cpp:52-124 | the option loop appends the encoding of all options, exactly when there is room |
| Serializer.WritePayload | src/coap_pp/pdu/serialize.cpp:126-145 | marker and payload, the marker taken back before an empty payload; fails exactly without room or on a refusing callback |
| Serializer.Serialize | src/coap_pp/pdu/serialize.cpp:28-149 | succeeds exactly when the message fits and its callback writes, and then the buffer starts with the datagram of the grammar |
| Deserializer.ScanExtField | src/coap_pp/pdu/option_field.hpp:52-73 | reads a field of the grammar within bounds, or reports exactly that it is cut off |
| Deserializer.ScanOptions | src/coap_pp/pdu/deserialize.cpp:19-66 | accepts exactly what the grammar accepts, with its error codes, and yields the end of the options, the start of the payload and every option's position |
| Deserializer.DeserializeFixedHeader | src/coap_pp/pdu/deserialize.cpp:70-89 | decodes type, code, message ID and token length or reports length or version |
| Deserializer.Deserialize | src/coap_pp/pdu/deserialize.cpp:91-140 | yields the grammar's reading of the datagram, or the grammar's error |
| Deserializer.ParseEncoded | src/coap_pp/pdu/deserialize.cpp:91-140 | every well-formed datagram is accepted and read back in full |
| Deserializer.ParseCanonical | src/coap_pp/pdu/deserialize.cpp:91-140 | every accepted datagram is the encoding of what is read from it |
| Deserializer.AcceptsExactlyTheGrammar | src/coap_pp/pdu/deserialize.cpp:91-140 | a datagram is read as a message if and only if it is that message's encoding |
| OptionsIteration.DecodeOptionField | include/coap_pp/pdu/option.hpp:49-59 | yields the field's low 16 bits and moves past its extension bytes |
| OptionsIteration.OptionsIterator.DeserializeCurrent | include/coap_pp/pdu/option.hpp:113-142 | without bounds checks of its own reads only inside the span, and yields the option at the cursor |
| OptionsIteration.OptionsIterator.Advance | include/coap_pp/pdu/option.hpp:83-88 | moves by exactly one option of the scanned list |
| OptionsIteration.Walk | include/coap_pp/pdu/option.hpp:65-142 | iterating over a scanned span terminates at its end, sees the scanned options and stops at the scan's positions |
| OptionsIteration.FindOption | include/coap_pp/pdu/option.hpp:163-169 | the first option with the number, if any |
| Builder.InsertionSort | include/coap_pp/util/sort.hpp:17-28 | the range becomes the stable sort of its old contents and the rest is untouched |
| Builder.StableSortIsStable | include/coap_pp/util/sort.hpp:12-16 | the result is sorted and options of equal number keep their order |
| Builder.StableSortIsUnique | include/coap_pp/util/sort.hpp:12-16 | sortedness and the order of equal numbers determine the result |
| Builder.MessageBuilder.AddOption | include/coap_pp/pdu/builder.hpp:44-55 | appends an option to a list that is not full |
| Builder.MessageBuilder.Build | include/coap_pp/pdu/builder.hpp:63-79 | sorts the option storage in place and yields the message with the sorted options |
| Codec.OptionsRoundTrip | include/coap_pp/pdu/option.hpp:113-142 | iterating over encoded options, sorted or not, gives them back if and only if their values have the table's formats |
| Codec.AcceptedOptionsAreValidated | include/coap_pp/pdu/option.hpp:61-64 | what the parser accepts in a datagram of at most 65535 bytes is what the unchecked iterator needs |
| Codec.RoundTrip | src/coap_pp/pdu/serialize.cpp:28-149 | a message that fits a datagram is parsed back with the same type, code, message ID, token and payload, and its options exactly when their values have the table's formats |
| Codec.RequiredIsLength | src/coap_pp/pdu/serialize.cpp:126-145 | the room needed is the datagram's length, and one byte more for a callback that writes nothing |
| Codec.BuiltMessageRoundTrip | include/coap_pp/pdu/builder.hpp:63-79 | options added in any order arrive stably sorted, exactly when the encoding fits the buffer |
| Codec.ReproducesExactlyCanonical | src/coap_pp/pdu/serialize.cpp:54-145 | serializing a decoded datagram reproduces it byte for byte if and only if its deltas have 16 bits and its values are the shortest of their formats |
| Codec.LeadingZeroExample | src/coap_pp/pdu/serialize.cpp:92-105 | a datagram with a zero byte as uint value that is accepted and comes out one byte shorter |
| Codec.SortedDeltasDoNotWrap | src/coap_pp/pdu/serialize.cpp:55 | for sorted options the deltas sum up, unbounded, to the option numbers (section 3.1 of RFC 7252) |
| WireBytes.HeadOnTheWire | src/coap_pp/pdu/wire.hpp:16-23 | the first four bytes in numbers: version 1, type 0 to 3 and token length, code, message ID with the high byte first; then the token |
| WireBytes.PayloadOnTheWire | src/coap_pp/pdu/wire.hpp:25-26 | a payload is the end of the datagram and the byte before it is 0xFF; without payload the options end it |
| WireBytes.OptionOnTheWire | src/coap_pp/pdu/wire.hpp:28-42 | delta in the high and length in the low nibble of the first byte, extended by a byte plus 13 or a 16-bit number plus 269; then the value |
| WireBytes.NumberIsSumOfDeltas | include/coap_pp/pdu/option.hpp:113-125 | iteration yields the running sums of the deltas, in 16 bits, as option numbers |
| WireBytes.UintIsBigEndian | include/coap_pp/pdu/option.hpp:37-43 | a uint is read as the big-endian number its bytes are, in 32 bits |
| WireBytes.UintBytesAreDigits | src/coap_pp/pdu/serialize.cpp:92-105 | a uint is written as its big-endian digits, without leading zeros |
| WireBytes.ErrorsExactly | src/coap_pp/pdu/deserialize.cpp:19-140 | each error of the parser exactly on its bytes: length, version, token length, malformed options, a marker at the end |
| WireBytes.FormatsInNumbers | include/coap_pp/option_number.hpp:108-150 | the empty, string and uint options by number; all others are opaque |
| WireBytes.ContentAckExample | src/coap_pp/pdu/serialize.cpp:28-149 | an ACK with token, two options and payload, both ways, byte for byte |
| Block.DecodeEncode | include/coap_pp/pdu/block.hpp:41-53 | decoding inverts encoding for 20-bit numbers and refuses wider ones |
| Block.EncodeDecode | include/coap_pp/pdu/block.hpp:45-53 | every accepted value is the encoding of a legal block; exactly wide values and exponent 7 are refused |
| Block.Renumber | include/coap_pp/pdu/block.hpp:35-39 | a block start of one size is a block start of every smaller size |
| Block.SzxForSize | include/coap_pp/pdu/block.hpp:63-72 | the loop finds the largest exponent whose size fits, 0 if none does |
| Block.SzxForMeans | include/coap_pp/pdu/block.hpp:63-72 | its size is at most the limit (16 if none is) and the next one is not, in numbers |
| Block.OptionValueInNumbers | include/coap_pp/pdu/block.hpp:32-44 | the value is 16 times the number, 8 for M, plus the exponent; the block begins at the number times 16, 32, ..., 1024 |
| Download.OverloadsAgree | include/coap_pp/server/blockwise.hpp:109-131 | the streaming and the span overload give the same response when the source reads the body |
| Download.AskedPlan | src/coap_pp/server/blockwise.cpp:40-51 | in any request a legal Block2 is understood, with the smaller of the two exponents |
| Download.ServedFromNamedByte | src/coap_pp/server/blockwise.cpp:61-74 | for any request with a legal Block2 the window starts at the byte the client named even when the exponent is reduced, ends at the block or the body, and M tells whether more follows |
| Download.RefusedExactly | src/coap_pp/server/blockwise.cpp:40-65 | 4.00 if and only if Block2 cannot be decoded or names a block behind the body |
| Download.ResponseOptions | src/coap_pp/server/blockwise.cpp:77-88 | Block2 on block-wise responses, Size2 exactly on their first block, ETag on every response when configured |
| Download.ServedInNumbers | src/coap_pp/server/blockwise.cpp:35-104 | the whole response to any request and body by its numbers: 2.05 or 4.00, the payload, ETag (4), Block2 (23) and Size2 (28) |
| Download.ReadableExactlyWhenNarrow | src/coap_pp/server/blockwise.cpp:70-73 | the response's block option can be read back if and only if the byte the client named lies below 2^20 blocks of the smaller of the asked and the configured size |
| Download.WideNumberExample | src/coap_pp/server/blockwise.cpp:70-73 | a request for which the response's number has 21 bits |
| Download.Fetch | src/coap_pp/server/blockwise.cpp:92-104 | a client with any other options, asking NUM+1 while M is set, terminates and has concatenated exactly the body, if and only if the body's block numbers fit 20 bits |
| Upload.UploadTransfer.Accept | src/coap_pp/server/blockwise.cpp:108-165 | the fields and the status after a request: whole body, malformed, restart, in sequence, repeated or out of order |
| Upload.UploadTransfer.Reset | src/coap_pp/server/blockwise.cpp:177-181 | forgets the position and nothing else |
| Upload.UploadAssembler.Accept | src/coap_pp/server/blockwise.cpp:191-226 | the transfer, the buffer overwritten in place at the block's offset, the body size and the answer after a request |
| Upload.UploadAssembler.CopyInto | src/coap_pp/server/blockwise.cpp:215-218 | the block replaces exactly its range of the buffer, within bounds |
| Upload.UploadAssembler.Reset | src/coap_pp/server/blockwise.cpp:244-247 | forgets the transfer and the body size, keeps the buffer |
| Upload.UploadTransfer.Continue | src/coap_pp/server/blockwise.cpp:167-171 | 2.31 with the block to send back |
| Upload.UploadTransfer.Reject | src/coap_pp/server/blockwise.cpp:173-175 | the error code of the rejected request |
| Upload.UploadTransfer.Finish | include/coap_pp/server/blockwise.hpp:211-218 | the application's response, with the block of a block-wise request added |
| Upload.UploadAssembler.Reply | src/coap_pp/server/blockwise.cpp:228-242 | the reply for the kind that the latest request left behind |
| UploadReplies.AcceptedInNumbers | src/coap_pp/server/blockwise.cpp:108-181 | by the numbers of its Block1 (27), the transfer and the payload a request is rejected with 4.00 or 4.08 or accepted at its offset, and then answered 2.31 or finished with its own number and M and the smaller exponent |
| UploadReplies.AnswerInNumbers | src/coap_pp/server/blockwise.cpp:191-242 | the answer to any request: 4.00, 4.08, 4.13 with Size1 (60) exactly for what exceeds the buffer or is announced to, 2.31 for any other block with M, else the body is complete |
| UploadSafety.RejectionChangesNothing | src/coap_pp/server/blockwise.cpp:191-196 | a rejected request leaves position, client, phase, buffer and body size untouched |
| UploadSafety.AcceptedBlock | src/coap_pp/server/blockwise.cpp:198-225 | after an accepted block the buffer starts with the gap-free blocks it continues and then the block |
| UploadSafety.Reachable | src/coap_pp/server/blockwise.cpp:132-164 | over every run of requests and resets, an unfinished or finished transfer's bytes are those of accepted, gap-free blocks of its client |
| UploadSafety.CompleteBodyIsGapFree | src/coap_pp/server/blockwise.cpp:191-226 | whenever the answer is kComplete, the body is the gap-free concatenation from offset 0 of accepted blocks of one client, the last being the current one, and Received() is its length |
| UploadDelivery.NextIsAligned | include/coap_pp/server/blockwise.hpp:183-188 | the block after a full one can be numbered in any smaller block size, in particular the advertised one |
| UploadDelivery.HarmlessIsRejected | src/coap_pp/server/blockwise.cpp:126-150 | malformed Block1 requests and non-first blocks of other clients change no position, client, phase or buffer |
| UploadDelivery.EventKeepsStep | src/coap_pp/server/blockwise.cpp:132-164 | a next block, a repeated block and a harmless request each keep server and client in step |
| UploadDelivery.BodyIsDelivered | src/coap_pp/server/blockwise.cpp:191-242 | from any state of the server, a client that sends its blocks in order, repeats and shrinks them, with malformed requests and stray blocks of others in between, is answered 2.31 with its own block number until it ends with kComplete and its body |
| Slip.SlipSendFrame | src/coap_pp_transport_udp_ip_slip/udp_ip_slip_transport.cpp:137-161 | the chunked writer sends exactly the byte-wise escaping between two END bytes |
| Slip.EscapeInNumbers | src/coap_pp_transport_udp_ip_slip/udp_ip_slip_transport.cpp:137-161 | C0 goes out as DB DC, DB as DB DD, every other byte as itself (RFC 1055) |
| Slip.FrameInNumbers | src/coap_pp_transport_udp_ip_slip/udp_ip_slip_transport.cpp:137-161 | a frame is the escaped data between two bytes C0, with no C0 in between |
| Slip.SlipReceiver.Accept | src/coap_pp_transport_udp_ip_slip/udp_ip_slip_transport.cpp:217-268 | one turn of the receive loop is one step of the automaton, and the buffer is never written out of range |
| Slip.FeedEscapeAll | src/coap_pp_transport_udp_ip_slip/udp_ip_slip_transport.cpp:223-268 | escaped data never ends a frame and is stored unescaped up to the buffer's size |
| Slip.FeedFrame | src/coap_pp_transport_udp_ip_slip/udp_ip_slip_transport.cpp:223-268 | in any state a whole frame is lost only to a pending escape, and leaves the receiver in step |
| Slip.FeedFrames | src/coap_pp_transport_udp_ip_slip/udp_ip_slip_transport.cpp:209-269 | in step, exactly the frames of 1 to 1260 bytes are delivered, in order |
| Slip.Resynchronises | src/coap_pp_transport_udp_ip_slip/udp_ip_slip_transport.cpp:209-269 | after any garbage the first frame is lost if and only if the garbage ends in an unfinished escape; all later ones arrive and an oversized one costs only itself |
| Slip.UnframedIsDropped | src/coap_pp_transport_udp_ip_slip/udp_ip_slip_transport.cpp:223-268 | what comes before the first END, or behind a broken escape, is dropped |
| SlipTransport.Fold | src/coap_pp_transport_udp_ip_slip/udp_ip_slip_transport.cpp:33-35 | the folding loop terminates and yields the one's-complement sum, which it keeps modulo 65535 |
| SlipTransport.Ipv4Checksum | src/coap_pp_transport_udp_ip_slip/udp_ip_slip_transport.cpp:26-37 | the complement of the one's-complement sum of the header's words |
| SlipTransport.SentHeaderSumsToAllOnes | src/coap_pp_transport_udp_ip_slip/udp_ip_slip_transport.cpp:71-95 | for every address, length and id the sent header including its checksum sums to 0xFFFF (section 3.1 of RFC 791) |
| SlipTransport.PacketOnTheWire | src/coap_pp_transport_udp_ip_slip/udp_ip_slip_transport.cpp:59-115 | every byte of the packet: IPv4 fields, a checksum that makes the ten words of the header sum to a multiple of 65535, addresses, ports, UDP length, data |
| SlipTransport.UdpIpSlipTransport.FillIpHeader | src/coap_pp_transport_udp_ip_slip/udp_ip_slip_transport.cpp:71-91 | fills in the header fields with a zero checksum |
| SlipTransport.UdpIpSlipTransport.Send | src/coap_pp_transport_udp_ip_slip/udp_ip_slip_transport.cpp:59-115 | messages of at most 1232 bytes go out as the frame of their packet with the next id; longer ones change nothing |
| SlipTransport.UdpIpSlipTransport.ProcessFrame | src/coap_pp_transport_udp_ip_slip/udp_ip_slip_transport.cpp:165-207 | hands on exactly the sender and payload of a valid frame for the local address and port |
| SlipTransport.UdpFrameIsDelivered | src/coap_pp_transport_udp_ip_slip/udp_ip_slip_transport.cpp:165-207 | a well-formed UDP frame, with IP options and trailing bytes, is delivered if and only if address and port are the local ones |
| SlipTransport.DeliveredIsUdpFrame | src/coap_pp_transport_udp_ip_slip/udp_ip_slip_transport.cpp:165-207 | whatever is delivered comes from a well-formed UDP frame |
| SlipTransport.PacketRoundTrip | src/coap_pp_transport_udp_ip_slip/udp_ip_slip_transport.cpp:59-132 | a packet sent to an endpoint is understood there, with the sender's local endpoint |
| SlipTransport.StreamRoundTrip | src/coap_pp_transport_udp_ip_slip/udp_ip_slip_transport.cpp:59-269 | any list of messages sent to a transport is delivered there exactly, in order and with the sender |
| SlipTransport.SendList | src/coap_pp_transport_udp_ip_slip/udp_ip_slip_transport.cpp:59-115 | consecutive sends put the frames of consecutive packets on the line, the id wrapping at 16 bits |
| SlipTransport.Exchange | src/coap_pp_transport_udp_ip_slip/udp_ip_slip_transport.cpp:59-269 | a receive loop that reads what consecutive sends of another transport wrote, with timeouts anywhere, hands on exactly the messages, in order and with the sender |
| SlipTransport.UdpIpSlipTransport.ReceiveLoop | src/coap_pp_transport_udp_ip_slip/udp_ip_slip_transport.cpp:209-269 | the loop delivers what the automaton and the frame parser yield for the bytes read, timeouts skipped |
| Messaging.PendingSlot.AdvanceRetry | src/coap_pp/messaging/messenger.cpp:19-29 | the timer's fields and action after a number of milliseconds, in 32-bit arithmetic |
| Retransmission.AdvanceOnTime | src/coap_pp/messaging/messenger.cpp:19-29 | a tick keeps timeout, count and elapsed time in range, and the k-th firing is at an age in [2000(2^k-1), 2000(2^k-1)+k*step) |
| Retransmission.CountFollowsAge | src/coap_pp/messaging/messenger.cpp:13-29 | the age of a live timer tells how often it has fired, and none outlives the last wait |
| Retransmission.DueTimes | src/coap_pp/messaging/messenger.cpp:13-15 | retransmissions fall due at 2, 6, 14 and 30 seconds and giving up at 62 (section 4.8 of RFC 7252) |
| Retransmission.MissesExactlyOnWrap | src/coap_pp/messaging/messenger.cpp:21-22 | a due timer keeps waiting if and only if the 32-bit sum wraps to below the timeout |
| Retransmission.WrapExample | src/coap_pp/messaging/messenger.cpp:21-22 | a tick after which a due timer waits |
| Messaging.Messenger.Allocate | include/coap_pp/util/memory_pool.hpp:59-71 | claims the first free slot and keeps the count equal to the occupied bits |
| Messaging.Messenger.Release | include/coap_pp/util/memory_pool.hpp:75-86 | frees one slot and keeps the count equal to the occupied bits |
| Messaging.Messenger.Send | src/coap_pp/messaging/messenger.cpp:44-94 | a CON takes the first free slot with its bytes and an armed timer, everything serializable that has a slot or needs none is transmitted once, and the result names the step that failed; only for a missing slot or a failed serialization is the table left as it was |
| PendingTable.FailedSendLeavesNoTrace | src/coap_pp/messaging/messenger.cpp:46-77 | a CON leaves the table unchanged if and only if there is no slot or it does not serialize; the transport's answer does not matter |
| PendingTable.RefusedConIsRetransmitted | src/coap_pp/messaging/messenger.cpp:69-75 | a CON that the transport refuses, reported as failed and retransmitted after two seconds |
| Messaging.Messenger.Tick | src/coap_pp/messaging/messenger.cpp:96-117 | every live slot advances once; retransmissions and timeout calls are exactly those of the slots that fire |
| Messaging.Messenger.OnReceive | src/coap_pp/messaging/messenger.cpp:119-166 | the table, the RST replies and the handler calls after any datagram |
| PendingTable.CancellingBytes | src/coap_pp/messaging/messenger.cpp:119-150 | what cancels, on its bytes: a decodable datagram of type 2 with code 0.00 or at least 1.00, or of type 3 with code 0.00, with the message ID |
| PendingTable.ReactionOnTheWire | src/coap_pp/messaging/messenger.cpp:119-179 | on the bytes of any datagram: the RST in reply, the RST call or the handler call it leads to, if any |
| Messaging.Messenger.SendRst | src/coap_pp/messaging/messenger.cpp:168-179 | transmits the empty RST with the message ID |
| Messaging.Messenger.AckPending | src/coap_pp/messaging/messenger.cpp:181-185 | frees exactly the slots with this message ID and destination |
| MessengerRuns.FateOfEntry | src/coap_pp/messaging/messenger.cpp:96-185 | an entry ends if and only if a tick gives it up or its destination sends a decodable datagram whose bytes are those of an ACK without request code or an empty RST with its message ID; else only its timer can change |
| MessengerRuns.OneCallEach | src/coap_pp/messaging/messenger.cpp:96-117 | a tick calls OnConTimeout once for each CON it gives up and transmits once for each it repeats |
| MessengerRuns.OneFatePerDatagram | src/coap_pp/messaging/messenger.cpp:119-166 | a datagram leads to at most one RST, handler call or RST call; a malformed CON gets an RST, invalid type and code combinations lead to nothing |
| MessengerRuns.StepConserves | src/coap_pp/messaging/messenger.cpp:44-185 | over one operation, pending and accepted CONs are pending, cancelled or given up |
| MessengerRuns.Conservation | src/coap_pp/messaging/messenger.cpp:44-185 | over every run, the accepted CONs are exactly the pending, the cancelled and the given-up ones, with multiplicity |
| MessengerRuns.OriginsExist | src/coap_pp/messaging/messenger.cpp:53-77 | over every run, each live slot holds the bytes of the accepted Send that filled it, and its timer fits the time since |
| MessengerRuns.FiresOnTime | src/coap_pp/messaging/messenger.cpp:96-117 | over every run, the slot of every accepted CON transmits it again at most four times, the k-th within [2000(2^k-1), 2000(2^k-1)+k*step) after the Send, gives it up at most once, after the fourth and within [62000, 62000+5*step), and otherwise frees it exactly for a cancelling datagram; an uncancelled CON has been given up at 62000+4*step |
| PathMatch.PatternSplitter.Next | include/coap_pp/util/path_match.hpp:45-55 | yields the pattern part's segments one by one |
| PathMatch.NextUriSegment | include/coap_pp/util/path_match.hpp:62-75 | yields the next Uri-Path value and the position behind it |
| PathMatch.MatchPart | include/coap_pp/util/path_match.hpp:77-109 | takes off the path exactly what the pattern part consumes, with its captures, or fails; the parameter vector never overflows |
| PathMatch.PathParams.Match | include/coap_pp/server/path_params.hpp:165-174 | values and tail are those of the match, or cleared, whatever was there before |
| PathMatch.CountPlaceholders | include/coap_pp/util/path_match.hpp:130-139 | the number of "{}" segments |
| PathMatch.EndsWithTailPlaceholder | include/coap_pp/util/path_match.hpp:151-159 | whether the last segment is "{*}" |
| RouteSpec.SplitMeans | include/coap_pp/util/path_match.hpp:32-55 | the segments have no slash and joined with slashes give the text |
| RouteSpec.SegmentsMean | include/coap_pp/util/path_match.hpp:35-55 | the segments of a part have no slash, and each behind a slash they are the part |
| RouteSpec.PatternOfRoute | include/coap_pp/util/path_match.hpp:35-55 | the segments of base path and path are the only ones whose path is the two put together |
| RouteSpec.RequestSegments | include/coap_pp/util/path_match.hpp:57-75 | the request's segments are the texts of its options numbered 11, in order |
| RouteSpec.PathSurvivesSorting | include/coap_pp/pdu/builder.hpp:63-79 | adding other options in between and sorting does not change the path |
| RouteSpec.ConsumeMeans | include/coap_pp/util/path_match.hpp:111-128 | the matcher succeeds if and only if the segments fit the pattern one by one, and captures the segments at placeholders in order and the tail |
| RouteSpec.RouteMatchesExactly | include/coap_pp/util/path_match.hpp:111-128 | for every accepted route, on texts: with the segments whose path is base path and path put together, and the texts of the Uri-Path options (11), the match succeeds if and only if they fit, and captures the right values and tail |
| RouteSpec.AcceptedExactly | src/coap_pp/server/coap_server.cpp:63-85 | a route is acceptable if and only if both parts are empty or start with a slash, "{*}" is at most the last segment of the path, and at most four segments are "{}" |
| RouteSpec.ValidateRoute | src/coap_pp/server/coap_server.cpp:63-85 | accepts a route if and only if it has leading slashes, at most four placeholders and at most a final tail outside the base path |
| RouteSpec.AcceptedRouteHasAcceptedPattern | src/coap_pp/server/coap_server.cpp:63-85 | what is checked at registration puts "{*}" only at the end of the whole pattern |
| RouteSpec.CopyTo | include/coap_pp/server/path_params.hpp:107-119 | writes the joined segments and a NUL exactly when they fit |
| RouteSpec.CopyToJoinsExactly | include/coap_pp/server/path_params.hpp:103-119 | what is written is the documented join if and only if the tail does not start with an empty segment that others follow |
| RouteSpec.LostSeparatorExample | include/coap_pp/server/path_params.hpp:103-119 | the tail of an empty segment and "a" is written without the slash |
| Ring.RingBuffer.Push | include/coap_pp/util/ring_buffer.hpp:36-43 | the ring holds the last N of its contents and the new element, through every wrap-around |
| Ring.RingBuffer.Contains | src/coap_pp/server/coap_server.cpp:209-215 | finds an element if and only if it is stored |
| Ring.SkippingRecentKeepsSpread | src/coap_pp/server/coap_server.cpp:163-174 | executing only what is not among the last N keeps any N+1 consecutive executions distinct |
| Ring.ExecutedAtMostOnce | src/coap_pp/server/coap_server.cpp:163-174 | over every run of arrivals, any N+1 consecutive executions are distinct and every arrival is executed (section 4.5 of RFC 7252) |
| Server.DecisionIsUnique | src/coap_pp/server/coap_server.cpp:121-154 | for every router list, method and path there is exactly one correct decision |
| Server.SearchRouter | src/coap_pp/server/coap_server.cpp:125-134 | the inner loop finds the first route that serves the request and leaves its captures, or none |
| Server.CoapServer.Decide | src/coap_pp/server/coap_server.cpp:121-154 | the first route in search order with path and method runs with its own captures; else 4.05 if and only if some path matches; else the not-found handler with empty parameters |
| Server.CoapServer.AddRouter | src/coap_pp/server/coap_server.cpp:60-88 | mounts a router in front if and only if its base path and all its routes are acceptable |
| Server.CoapServer.OnMessage | src/coap_pp/server/coap_server.cpp:95-201 | the handler calls, replies, remembered executions and the next message ID after any message, keeping any N+1 consecutive executions distinct |
| Server.CoapServer.IsDuplicate | src/coap_pp/server/coap_server.cpp:209-215 | whether the request is among the last N executions |
| Server.CoapServer.SendEmptyAck | src/coap_pp/server/coap_server.cpp:217-226 | sends the empty ACK with the message ID |
| Server.CoapServer.SendResponse | src/coap_pp/server/coap_server.cpp:228-263 | piggybacked ACK with the request's ID or a CON/NON with the next ID, and the options in stable order |
| ServerBytes.DecisionMeans | src/coap_pp/server/coap_server.cpp:121-154 | on texts and option numbers: the first route in search order whose path the request fits and whose method is the request's runs with its own captures; without one 4.05 if some path fits, else the not-found handler without parameters |
| ServerBytes.RepliesAcknowledge | src/coap_pp/server/coap_server.cpp:156-247 | the one message after a CON is an ACK with its message ID, with response and token or empty; after a NON a NON with the token and the next message ID, or none |
| ServerBytes.RequestIsAcknowledged | src/coap_pp/server/coap_server.cpp:156-247 | the reply to a CON, as bytes, ends exactly that exchange at the client's Messenger |
| ServerBytes.EmptyAckOnTheWire | src/coap_pp/server/coap_server.cpp:217-226 | the four bytes of the empty ACK |
| ServerBytes.NotAllowedOnTheWire | src/coap_pp/server/coap_server.cpp:138-145 | the bytes of the 4.05 reply to a CON |
| ServerBytes.ReplyOptions | src/coap_pp/server/coap_server.cpp:246-255 | the options of a reply by number: Observe (6) and Content-Format (12) of the server before the response's own, all sorted |
| ServerBytes.HelloIsParsed | src/coap_pp/pdu/deserialize.cpp:91-140 | the bytes of GET /hello are read as that request |
| ServerBytes.HelloExample | src/coap_pp/server/coap_server.cpp:121-154 | GET /hello runs the handler of the route "/hello" |
| Observing.ObservableBase.HandleObserve | src/coap_pp/server/observable.cpp:38-89 | registers, deregisters or ignores by the Observe value, and reports the current sequence number on registration |
| Observing.ObservableBase.RemoveByEndpointToken | src/coap_pp/server/observable.cpp:91-98 | removes the pair's entries and no other |
| Observing.ObservableBase.RemoveByMid | src/coap_pp/server/observable.cpp:100-110 | removes the entries whose latest notification has the ID and the endpoint, and no other |
| Observing.ObservableBase.SelectMessageType | src/coap_pp/server/observable.cpp:112-134 | the type and the promotion counter by policy |
| ObserverTable.NotificationType | src/coap_pp/server/observable.cpp:112-134 | forced notifications are confirmable as forced, automatic ones when the count of NONs has reached the period; a CON starts the count again |
| Observing.ObservableBase.Notify | src/coap_pp/server/observable.cpp:136-153 | one message per observer in order with consecutive IDs, the sequence number advanced on 2.xx, the table after it |
| Observing.OnRejection | src/coap_pp/server/coap_server.cpp:265-277 | after an RST or a CON timeout every observable has dropped exactly the entries with that latest ID and endpoint |
| ObserverTable.RegistrationMeans | src/coap_pp/server/observable.cpp:56-89 | a successful registration leaves the pair exactly one fresh entry and others alone; a removal leaves it none |
| ObserverTable.RegisterKeepsInv | src/coap_pp/server/observable.cpp:56-84 | a registration keeps the table's invariant and fails if and only if the table is full of other pairs |
| ObserverTable.NotifyKeepsInv | src/coap_pp/server/observable.cpp:136-153 | a notification renews all message IDs, distinct for up to 65536 entries, and a non-2.xx one empties the table |
| ObserverRuns.RunKeepsInv | src/coap_pp/server/observable.cpp:38-153 | over every run pairs are distinct and message IDs are distinct ones of the most recent Notify |
| ObserverTable.RejectionRemovesAtMostOne | src/coap_pp/server/observable.cpp:100-110 | one RST or CON timeout removes at most one entry of an observable (section 4.5 of RFC 7641) |
| ObserverTable.RejectionHitsItsObserver | src/coap_pp/server/observable.cpp:100-110 | rejecting the notification that went to an entry removes that entry and no other |
| ObserverTable.RejectionSparesOthers | src/coap_pp/server/observable.cpp:100-110 | an entry with another endpoint or another latest message ID stays as it is |
| ObserverRuns.RejectedNotificationEndsObservation | src/coap_pp/server/observable.cpp:100-153 | a client that rejects a 2.xx notification it was sent is removed, every other observer stays (section 4.5 of RFC 7641) |
| ObserverRuns.RejectionStaysPossible | src/coap_pp/server/observable.cpp:38-110 | that holds until the next notification, whatever others do in between |
| ObserverRuns.AutoConExactlyAtMultiples | src/coap_pp/server/observable.cpp:112-134 | in a run of kAuto the n-th notification is a CON if and only if n is a multiple of the promotion period |
| ObserverRuns.ObserverIsProbedAtMultiples | src/coap_pp/server/observable.cpp:38-153 | over every run after a registration, with any registrations, removals and rejections of other observers in between, the next kAuto notification to an observer still in the table is a CON if and only if its number since the registration is a multiple of the promotion period |
| ObserverRuns.EveryObserverIsNotified | src/coap_pp/server/observable.cpp:143-152 | each observer gets its notification, with the next of the consecutive message IDs |
| ObserverRuns.ForcedNonsWrap | src/coap_pp/server/observable.cpp:128-132 | forced NONs count modulo 256, which decides when kAuto promotes next |
| ObserverRuns.WrapExample | src/coap_pp/server/observable.cpp:128-132 | after 256 forced NONs kAuto does not promote |
| ObserverRuns.SequenceCounts | src/coap_pp/server/observable.cpp:136-141 | over every run the sequence number counts the 2.xx notifications modulo 2^32, whatever else happens |
| ObserverRuns.ObserveComesFirst | src/coap_pp/server/coap_server.cpp:245-256 | the Observe option a client finds is the server's, before any of the response's options |
| ObserverRuns.ShownValuesAreOrdered | src/coap_pp/server/observable.cpp:17-153 | over every run, of any two Observe values shown to one observer, in its registration's response or a 2.xx notification, the freshness test takes the later for newer, across the 24-bit and 32-bit wraps, if and only if the number of 2.xx notifications between them modulo 2^24 is in 1..2^23-1 (section 3.4 of RFC 7641) |
| ObserverRuns.ReservedValuesExactlyAfterWrap | include/coap_pp/server/observable.hpp:130-134 | an Observe value of 0 or 1 is shown exactly when the number of 2.xx notifications plus 2 is 0 or 1 modulo 2^24 |
| ObserverRuns.ReservedValueExample | include/coap_pp/server/observable.hpp:130-134 | a run after which the value is 0 |

## Left out

- POSIX sockets, threads, `running_` and serial-port reads: only the bytes read and written are modelled; the receive loop runs over a given list of read results.
- Transport failures: a send is recorded as attempted, and what the transport answers is an input of `Messenger.Send`; in `UdpIpSlipTransport` a receiver is assumed to be registered.
- Panics (full option list, foreign or double release, full parameter vector) are preconditions, and `AddRouter`'s is a `false` result.
- Payload callbacks write a given byte string or refuse; a callback that writes different bytes depending on its window is not modelled.
- Request handlers: what the handler does (answer, no answer, answer later) is an input of `OnMessage`; handlers that call back into the library are not modelled.
- The server hands its messages to a log instead of a `Messenger` object; its list of observables is a parameter of `Observing.OnRejection`.
- `GetUint`, JSON and nanopb serialization, `Router::Bind`, logging and `JoinUriPath`.
- The library's binary search in `FormatFor`: the table is a function of the option number.
- Route matching and block-wise transfer read the options as the list that `OptionsIteration.Walk` yields, with positions in that list as iterators.
- Handler and endpoint identity: handlers are numbers and endpoints are 32 bytes compared as a whole.
- Serializer.Serialize: buffers of 2^32 bytes or more are not covered, because the option length is cast to 32 bits.
- MessengerRuns.FiresOnTime: says nothing about re-entrant calls from a transport or timeout handler into the Messenger, which the repository's single-context model excludes.
