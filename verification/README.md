# Protocol engines of Mongoose, modelled and proved in Dafny

`src/mongoose.c` is an embeddable networking library. Between its sockets and its user's handlers it has protocol
engines that work on bytes: they decode streams inside their own receive buffers, write packets into send buffers, and
keep their state in mutable records. This project models those engines in their own form (classes with mutable fields,
arrays changed in place, cursor loops, a linked list) and proves each method against a function over byte sequences.
The main results are then proved about those functions, for all inputs.

| files | engine | main result |
|---|---|---|
| `Bytes`, `Mbuf` | octets, their bits, letters and order, memmove and its like, the growable I/O buffer | contents after each buffer operation |
| `WsCodec`, `WsStream`, `WsWire`, `Websocket` | WebSocket frames, defragmented in the receive buffer (RFC 6455) | any messages in any fragmentation and segmentation are delivered whole and in order, and leave the buffer empty; what is sent is received; every octet and bit of a frame |
| `ChunkedCodec`, `Chunked` | chunked bodies, reassembled in place (section 4.1 of RFC 7230) | reassembly equals decoding the whole stream, for any segmentation and any deletion by the handler, unless a size wraps its word; sizes printed in either case |
| `MultipartCodec`, `MultipartStream`, `MultipartWire`, `Multipart` | streaming multipart reader (RFC 2046) | bodies are told part by part exactly as they are, for any segmentation but the bad cuts, which are characterised exactly; the event grammar over every run; an upload as browsers write it |
| `MqttCodec`, `MqttWire`, `Mqtt` | MQTT packets (MQTT 3.1.1) | one event per packet and, octet for octet, the right acknowledgement, for any segmentation; where every field of a packet is; exactly which length fields are safe; publish and subscribe round trips |
| `CoapCodec`, `CoapWire`, `Coap` | CoAP messages and their linked option list (RFC 7252) | compose/parse round trip, exactly when it holds; the list is the stable sort of what was added; what is refused |
| `DnsNames`, `DnsCodec`, `DnsWire`, `Dns`, `Resolver` | DNS names, packets, and the asynchronous resolver (RFC 1035) | exactly when decompression ends, and what it yields; exactly which names come back; packet round trip; exactly what the resolver's one callback is told |
| `Glob` | the recursive pattern matcher | sound, complete, and greedy against a declarative meaning; blind to the case of letters |
| `UriPath` | path normalisation over its own input | equals remove_dot_segments of section 5.2.4 of RFC 3986; idempotent |
| `Hashing` | buffering, counting and padding of SHA-1 and MD5 | split-independent, and the padded message of the standards |
| `Base64` | streamed and one-shot encoders, decoder (RFC 4648) | all agree, and decoding is the inverse |
| `SendPipeline`, `SendRuns` | a TCP connection under its event loop callbacks | the outcome of every interleaving of callbacks: nothing is lost, the write watcher runs, closing only when due and for a reason; exactly when system flags are out of a user's reach |

What a round trip cannot tell, because a writer and a reader may err alike, is stated apart from both: the modules whose
names end in `Wire`, and the last sections of the others, say what the octets are in numbers, with the examples of the
standards.

## Reading the model

- An octet is an `int` from 0 to 255; exclusive or, shifts and masks are written as arithmetic. A 32-bit or 64-bit
  word that can wrap is reduced explicitly (`% 0x1_0000_0000`); lengths of things in memory are unbounded naturals.
- The machine is little-endian where the source copies an integer as it lies in memory.
- Allocation succeeds. Growing a buffer allocates anew; where the source relies on a resize keeping the address
  (opening a WebSocket reassembly area), the model goes on with the new allocation and the same contents.
- What the environment decides is a parameter: the bytes received, what a socket takes, whether a handler asks for a
  chunk to be deleted, the random mask, the time. What a user's handler is called with is a ghost trace.
- Strings that the source takes as NUL-terminated are byte sequences without their NUL.
- `Undefined`, `Malformed`, `Outside` and `Overrun` stand for inputs on which the source reads or writes outside its
  buffer. Nothing is claimed behind them; who runs into them is stated.

## Where the code does not meet its intent

These are theorems too, each with the exact condition or a concrete input:

- A first fragment whose header is shorter than five bytes (unmasked, below 64 KiB) has payload bytes zeroed by the
  size field of the reassembly area, unless they are zero already: `WsStream.FirstFragmentIntact`,
  `WsStream.UnmaskedFragmentLost`.
- The test for a close frame reads the buffer after the frame was moved out of it: `WsStream.CloseTestReads` says
  which byte it reads instead, for every kind of frame.
- A chunk size is read modulo 2^64, and one whose end wraps around to its own line end, FFFFFFFFFFFFFFFE, or just in
  front of itself makes the source leave its buffer: `ChunkedCodec.RunIsDecode`, `ChunkedCodec.LargestSizeWraps`.
- An MQTT length field is added up in an int and may be read one byte past the data. Four length bytes that all announce
  another one are enough for that byte to matter, and for the sum to leave its int: `MqttCodec.PastIrrelevant`,
  `MqttCodec.TruncatedIncomplete`, `MqttCodec.PrefixesWait`, `MqttCodec.FiveBytesMisread`.
- A message completed from fragments is delivered with the flags of its last frame (`WsStream.EventOf`).
- A CoAP option number, delta or value length of 65536 or more is composed and is lost in parsing:
  `CoapCodec.RoundTrip`, `CoapCodec.ExtRoundTrip`.
- Name decompression does not end on a packet whose pointers go round in a circle: `DnsNames.EndsExactlyWhen`,
  `DnsNames.SelfPointerNeverEnds`.
- Labels of 64 to 127 bytes are written although their length octet reads as a pointer, and then the name never comes
  back; a name with an empty label, or a trailing dot, comes back cut: `DnsNames.NameRoundTrip`,
  `DnsNames.LongLabelLost`.
- An answer without data at the very end of a packet is not parsed: `DnsCodec.RecordRoundTrip`.
- MD5 counts only the low 32 bits of the length of an update: `Hashing.Md5LengthExact`. SHA-1 tests for a whole block
  on 32-bit words, and takes lengths as such: `Hashing.BlockTest`, `Hashing.HashedWhole`.
- A multipart request without parts is ended as if it had one: `MultipartStream.NoPartsNoStory`,
  `MultipartCodec.EventGrammar`, `MultipartCodec.CloseGrammar`.
- Multipart header lines other than Content-Disposition are not taken off the size that is still to be scanned, so a
  header block that a receive cuts behind one of them is scanned past the buffer: `MultipartStream.BodyDelivered` for
  exactly which cuts, `MultipartStream.CutMatters` for one.
- The resolver reports a lookup whose connection closes before anything was recorded as fine, without a message:
  `Resolver.FalseSuccess` for exactly which, `Resolver.FailedConnectToldFine` for one.
- Only handlers called through the dispatcher as the connection's own have their changes to system flags undone. The
  MQTT, DNS and CoAP handlers call the user's handler themselves, and endpoint handlers are another function than the
  connection's own: `SendPipeline.UserCannotTouchSystemFlags`, `SendPipeline.DirectHandlerKeepsFlag`.

## Model

| member | source | states |
|---|---|---|
| Bytes.XorAt | src/mongoose.c:8951-8956 | a bit of an exclusive or is set exactly where the two octets differ |
| Bytes.LettersMatch | src/mongoose.c:1802-1815 | two octets match regardless of case exactly if they are the same, or one letter's two cases, which differ by the bit 20 |
| Bytes.OctetOrder | src/mongoose.c:8932-8937 | numbers in network order have their highest octet first, and in memory their lowest |
| IoBuffers.Mbuf.Resize | src/mongoose.c:1045-1057 | the allocation changes only when it grows or still holds the contents, which stay |
| IoBuffers.Mbuf.Trim | src/mongoose.c:1060-1062 | the unused room is given back, the contents stay |
| IoBuffers.Mbuf.Insert | src/mongoose.c:1065-1095 | the bytes appear at the offset and nothing else moves relative to its neighbours; when they do not fit, the buffer grows to one and a half times the need |
| IoBuffers.Mbuf.Append | src/mongoose.c:1098-1100 | the bytes appear at the end |
| IoBuffers.Mbuf.Remove | src/mongoose.c:1103-1108 | a prefix disappears; a count beyond the length does nothing |
| WsCodec.MaskedTwice | src/mongoose.c:8951-8956 | masking with the same mask twice gives the payload back |
| WsCodec.StepConsumes | src/mongoose.c:9130-9133 | every successful delivery shortens the bytes still to decode, so the delivery loop ends, on any input |
| WsCodec.StepExtends | src/mongoose.c:8908-8992 | a delivered frame is delivered the same way when more bytes have already arrived behind it |
| WsCodec.DrainExtends | src/mongoose.c:9130-9133 | running the delivery loop now and again after more bytes equals running it once over everything |
| WsStream.HeaderRoundTrip | src/mongoose.c:8925-8939 | the header of any frame in any length form is read back, whatever follows |
| WsStream.FrameRoundTrip | src/mongoose.c:8925-8956 | the flags and the unmasked payload of any frame are read back |
| WsStream.PrefixNotReady | src/mongoose.c:8925-8942 | no proper prefix of a frame is taken for a frame |
| WsStream.StepOnFrame | src/mongoose.c:8944-8991 | one delivery on a buffer that holds a partial message and a frame: the event, and the partial message after it |
| WsStream.SegmentationIndependent | src/mongoose.c:9130-9133 | after any segments of a well-formed stream: exactly the events of the complete frames, and the buffer is the partial message, if any, followed by the raw rest |
| WsStream.MessageMeans | src/mongoose.c:8958-8983 | a message cut into any fragments raises exactly one event, with its whole payload |
| WsStream.MessagesDelivered | src/mongoose.c:8908-8992 | any messages, each cut into masked fragments, in any segmentation: the handler sees exactly them, in order, and the buffer is empty after them |
| WsStream.FirstFragmentIntact | src/mongoose.c:8958-8971 | a first fragment's payload survives the size field if and only if the header has five bytes or the bytes hit are zero |
| WsStream.UnmaskedFragmentLost | src/mongoose.c:8959-8969 | a concrete unmasked fragment that is delivered as zeros |
| WsStream.CloseTestReads | src/mongoose.c:8985-8988 | the byte the close test reads, for every frame of a well-formed stream: the first byte behind an unfragmented frame, the first byte of a fragment's payload, or, after the last fragment, the byte that came to where it began; what was there before when nothing moves |
| WsStream.SendReceive | src/mongoose.c:9027-9084 | whatever is sent with FIN and a non-zero opcode is received as one event with the same flags and payload, masked or not, and exactly its bytes are consumed |
| WsStream.UnfragmentedDelivered | src/mongoose.c:8979-8983 | any unfragmented frame in any length form is delivered with its flags and payload and leaves the bytes behind it |
| Websocket.Connection.Receive | src/mongoose.c:9130-9133 | the receive event runs the delivery loop in place: buffer and events are those of the function `Drain` |
| Websocket.Connection.DeliverData | src/mongoose.c:8908-8992 | one in-place delivery is one `Step` on the buffer's contents, and closes after sending exactly when the byte it tests is a close opcode, continued messages included |
| Websocket.Connection.ClearPayload | src/mongoose.c:8951-8956 | the payload is unmasked where it lies and no other byte changes |
| Websocket.Connection.OpenMessage | src/mongoose.c:8959-8970 | the first fragment becomes flag, size and payload at the front of the buffer |
| Websocket.Connection.ContinueMessage | src/mongoose.c:8967-8988 | a later fragment moves down behind the payload so far; the last one delivers all of it and empties the area; a close is tested on the byte that `WsStream.CloseTestReads` names |
| Websocket.Connection.SendFrame | src/mongoose.c:9072-9084 | the frame of the right length form is appended, masked if and only if the sender is a client; what was queued stays |
| Websocket.Connection.SendFrameV | src/mongoose.c:9086-9106 | the same bytes as one send of the concatenation under the same mask |
| Websocket.Connection.MaskFrame | src/mongoose.c:9064-9070 | what was queued from a position on is masked in place, what was queued before stays |
| WsWire.HeaderIs | src/mongoose.c:9027-9062 | every octet of a frame in front of its payload: flags, mask bit, length form, length in network order, mask |
| WsWire.PayloadIs | src/mongoose.c:9064-9070 | every bit of a payload on the wire is flipped exactly where the mask, repeated, has it set |
| WsWire.UnmaskedIs | src/mongoose.c:8951-8956 | and flipped back like that by the receiver, whatever it received |
| WsWire.HelloReceived | src/mongoose.c:8908-8992 | the masked text of section 5.7 of RFC 6455, in any segmentation, is told as exactly "Hello" |
| WsWire.FragmentedHelloReceived | src/mongoose.c:8958-8983 | and so are its octets in two masked fragments |
| WsWire.FragmentKept | src/mongoose.c:8958-8971 | the octets that the first of them becomes in the buffer |
| WsWire.KindOf | src/mongoose.c:8899-8906 | a frame is told as a control frame exactly when its opcode is 8 or more |
| WsWire.BinaryReceived | src/mongoose.c:8925-8942 | unmasked frames of 256 octets and of 64 KiB, as section 5.7 of RFC 6455 writes their headers |
| WsWire.PingReceived | src/mongoose.c:8899-8906 | a ping is told as a control frame with its payload, whatever is behind it |
| WsWire.HelloSent | src/mongoose.c:9027-9084 | the octets of a text sent at once, masked or not, and in two parts |
| WsWire.SentFlags | src/mongoose.c:9032 | the first octet of a sent frame: the low four bits of what is asked for, and the top one unless bit 8 of that is set |
| WsWire.SentForm | src/mongoose.c:9040-9055 | the length form of a sent payload: two octets up to 125, four up to 65534, ten above |
| WsWire.ClosesOn | src/mongoose.c:8985-8988 | an empty close frame closes the connection, and so does a fragmented text that starts with H |
| WsWire.LengthWraps | src/mongoose.c:8941-8942 | a length of 64 ones passes for one that is there |
| ChunkedCodec.DecodeExtends | src/mongoose.c:5541-5564 | decoding what is there and then the undecoded rest with more bytes equals decoding everything, with sizes as 64-bit words |
| ChunkedCodec.ChunkRoundTrip | src/mongoose.c:5508-5539 | any spelling, modulo 2^64, of a size in hexadecimal digits, with its data, is parsed back |
| ChunkedCodec.DigitTable | src/mongoose.c:5514-5519 | the digits of a size are those of the lower and the upper alphabet, and each counts what its place there is |
| ChunkedCodec.CaseOfDigits | src/mongoose.c:5514-5519 | the case of its letters does not change a size |
| ChunkedCodec.TenOctets | src/mongoose.c:5508-5539 | ten octets behind the size a, or A, are one chunk of ten octets |
| ChunkedCodec.BodyRoundTrip | src/mongoose.c:5508-5564 | a chunked body decodes to its data, up to the zero chunk, and leaves what follows |
| ChunkedCodec.RunIsDecode | src/mongoose.c:5541-5596 | after any segments, what was deleted followed by the body in the buffer is the data of all complete chunks, and the tail is the undecoded rest; the source leaves its buffer if and only if decoding comes to a size that wraps |
| ChunkedCodec.LargestSizeWraps | src/mongoose.c:5528-5538 | the concrete size whose end wraps around to its own line end, whatever follows it |
| ChunkedCodec.WrapsIs | src/mongoose.c:5528-5538 | a size makes the source leave its buffer exactly if the end of its data, computed in a word, is the size's own line end or so high that the line end behind it wraps around |
| ChunkedCodec.BodyDelivered | src/mongoose.c:5541-5596 | a chunked body in any segmentation, with any deletions, is reassembled whole |
| ChunkedCodec.PrintedBodyDelivered | src/mongoose.c:5541-5596 | the same for sizes printed from their numbers, in either case, with any zeros in front |
| Chunked.ReadChunk | src/mongoose.c:5508-5539 | the cursor loop of the chunk parser, in 64-bit words, finds exactly what `ParseChunk` describes, unless the size wraps into the chunk |
| Chunked.Collapse | src/mongoose.c:5551-5564 | the in-place loop gathers the data of the complete chunks behind the body so far and leaves the undecoded bytes alone |
| Chunked.Connection.HandleChunked | src/mongoose.c:5541-5596 | one call on the receive buffer is one reassembly step; on the zero chunk the message length is the buffer's length |
| Chunked.Connection.Receive | src/mongoose.c:5737-5741 | a received segment of a chunked request is appended and reassembled; the headers stay |
| Chunked.SendChunk | src/mongoose.c:6537-6545 | a sent chunk is the hexadecimal size, the data and the line ends, a spelling the receiver reads |
| MultipartCodec.Turn | src/mongoose.c:6088-6132 | each turn of the state machine that goes on shortens the buffer or lowers the rank of the state: the loop ends on any input |
| MultipartCodec.EventGrammar | src/mongoose.c:5927-6132 | over any run on any bytes, the events are a prefix of REQUEST (BEGIN DATA* END)+ REQUEST_END while the request goes on, a part is open exactly when one was begun, and a finished request follows the grammar if and only if it had a part |
| MultipartCodec.CloseGrammar | src/mongoose.c:5678-5703 | closing in the middle ends the open part and the request once, by the grammar if and only if there was a part |
| MultipartStream.FirstInBuffer | src/mongoose.c:1722-1737 | a search of the buffer finds the boundary at its place in the stream once enough has arrived, and nothing before |
| MultipartStream.ContentTurn | src/mongoose.c:6058-6086 | a turn inside content delivers a piece of it or all of the rest, never a byte of the delimiter, and waits only for bytes still to come |
| MultipartStream.PartContentConserved | src/mongoose.c:6058-6086 | from the start of a part's content, for any segmentation and whatever follows its boundary, the data before the next other event are exactly the content |
| MultipartStream.ContentConserved | src/mongoose.c:5942-5953 | the same from any point inside the content |
| MultipartStream.ScanLines | src/mongoose.c:6013-6051 | a header block's end is found once it is there; before that the scan runs past the buffer if and only if a line other than Content-Disposition is complete |
| MultipartStream.BodyDelivered | src/mongoose.c:5970-6132 | a well-formed body in any segmentation is told whole: every part's disposition and content, in order, then the end; the source reads outside its buffer instead if and only if a receive ends in a header block behind a complete line other than Content-Disposition, with two bytes more than the boundary's line there |
| MultipartStream.AlwaysTold | src/mongoose.c:5970-6132 | a body received at once, and one with Content-Disposition lines only, is always told whole |
| MultipartStream.CutMatters | src/mongoose.c:6013-6017 | a concrete body that is told whole in one receive and makes the source leave its buffer in two |
| MultipartStream.NoPartsNoStory | src/mongoose.c:5955-6002 | a body without parts, in any segmentation, ends a part that never began |
| MultipartWire.DispositionIs | src/mongoose.c:6017-6019 | the line that names a part is recognised exactly by its first 21 octets, in either case of each letter |
| MultipartWire.BrowserLine | src/mongoose.c:6017-6023 | in the spelling that browsers use it is, and its value is what follows up to the line end |
| MultipartWire.UploadTold | src/mongoose.c:5970-6132 | an upload of one part, octet by octet, in any segmentation is told with exactly its value and its content |
| Multipart.Strnstr | src/mongoose.c:1722-1737 | the search finds the first occurrence, or none if there is none |
| Multipart.GetLineLen | src/mongoose.c:5859-5863 | the length of a line with its newline, or 0 |
| Multipart.Reader.WaitForBoundary | src/mongoose.c:5970-6002 | the in-place state handler is that turn of the machine |
| Multipart.Reader.ProcessBoundary | src/mongoose.c:6004-6056 | likewise, with the header loop over the buffer |
| Multipart.Reader.WaitForChunk | src/mongoose.c:6058-6086 | likewise, with the early delivery of what an earlier receive left |
| Multipart.Reader.GotChunk | src/mongoose.c:5942-5953 | likewise |
| Multipart.Reader.FinalizeRequest | src/mongoose.c:5955-5968 | likewise |
| Multipart.Reader.Continue | src/mongoose.c:6088-6132 | the dispatch loop over the buffer is `Loop` on its contents |
| Multipart.Reader.Close | src/mongoose.c:5686-5703 | the events a closing connection adds |
| MqttCodec.ScanVarLen | src/mongoose.c:9704-9712 | a length field that is there in full is read back with its end if and only if it fits the int it is added up in |
| MqttCodec.TruncatedIncomplete | src/mongoose.c:9704-9716 | a truncated length field waits, whatever byte lies past the data, if and only if it has at most three bytes |
| MqttCodec.PastIrrelevant | src/mongoose.c:9704-9716 | the byte past the data changes no parse if and only if it does not lie behind exactly four length bytes with their top bit set |
| MqttCodec.FiveBytesMisread | src/mongoose.c:9704-9716 | five concrete bytes that wait or leave the int, as the byte behind them has it |
| MqttCodec.StepOnPacket | src/mongoose.c:9693-9789 | a complete packet is parsed and exactly its bytes are taken, if and only if it has fewer than 2^31 of them |
| MqttCodec.StepOnPrefix | src/mongoose.c:9700-9716 | a proper prefix of a packet with a remaining length below 2^28 waits |
| MqttCodec.PrefixesWait | src/mongoose.c:9700-9716 | every proper prefix of a packet waits, whatever lies past it, if and only if its remaining length is below 2^28 |
| MqttCodec.SegmentationIndependent | src/mongoose.c:9791-9818 | after any segments of a stream of packets with remaining lengths below 2^28: one message per complete packet, in order, and a proper prefix of the next in the buffer |
| MqttCodec.PublishRoundTrip | src/mongoose.c:9755-9772 | topic, QoS and payload of a published packet are read back, and the message id if and only if the QoS is not 0 |
| MqttCodec.TopicsRoundTrip | src/mongoose.c:9974-9986 | iterating over a subscription's topics yields exactly its list, then the end |
| MqttCodec.SubscribeRoundTrip | src/mongoose.c:9773-9782 | a subscription's id and list are read back |
| MqttWire.LengthIs | src/mongoose.c:9704-9712 | a remaining length in seven bits to an octet, the lowest first, as section 2.2.3 of MQTT 3.1.1 has it |
| MqttWire.PublishIs | src/mongoose.c:9755-9772 | which first octets are a publication of which QoS, and where its topic, id and payload are |
| MqttWire.ConnectIs | src/mongoose.c:9719-9733 | the place of every field of a connect, the optional ones present as its flag bits say |
| MqttWire.ShortOnesAre | src/mongoose.c:9745-9782 | the fields of the acknowledgements, of an acknowledged connection, and of a subscription |
| MqttWire.PublishSent | src/mongoose.c:9935-9952 | the octets of a sent publication |
| MqttWire.SubscribeSent | src/mongoose.c:9954-9972 | the subscription of section 3.8 of MQTT 3.1.1 |
| MqttWire.AcksAre | src/mongoose.c:9766-9770 | what is queued for a packet: 42 02 and its id for QoS 1, 52 02 and its id for QoS 2, nothing for any other packet |
| MqttWire.AnswersRead | src/mongoose.c:9766-9770 | what is queued for a stream reads as one packet of type 4 per publication of QoS 1 and one of type 5 per publication of QoS 2, with its id, in order, and nothing else |
| Mqtt.Connection.Receive | src/mongoose.c:9791-9818 | the handler's loop raises one event per packet and queues one PUBACK per QoS 1 and one PUBREC per QoS 2 publication |
| Mqtt.ReceiveAll | src/mongoose.c:9791-9818 | over any segments of a stream: one event per packet that is there whole, and exactly the octets owed for these are queued |
| Mqtt.Connection.ParseNext | src/mongoose.c:9796-9808 | each turn handles exactly the first packet left, or leaves everything alone |
| Mqtt.Connection.ParseMqtt | src/mongoose.c:9693-9789 | the parser over the buffer is `Step` on its contents and the byte past them, on every buffer whose length field stays in its int and whose body suits its command |
| Mqtt.Connection.PrependHeader | src/mongoose.c:9906-9933 | the fixed header goes in front of the packet's body; what was queued before stays |
| Mqtt.Connection.Publish | src/mongoose.c:9935-9952 | exactly one PUBLISH is queued behind what was queued |
| Mqtt.Connection.Subscribe | src/mongoose.c:9954-9972 | exactly one SUBSCRIBE is queued |
| Mqtt.Connection.SendShortCommand | src/mongoose.c:10018-10023 | exactly one packet with only a message id is queued |
| CoapCodec.InsertAllIsStableSort | src/mongoose.c:11003-11049 | after any additions the list is ordered by number, has the same options, and keeps equal numbers in the order they came |
| CoapCodec.StableSortUnique | src/mongoose.c:11003-11049 | that determines the list |
| CoapCodec.ComposeBytes | src/mongoose.c:11372-11490 | the size computed beforehand is the number of bytes written |
| CoapCodec.ExtRoundTrip | src/mongoose.c:11141-11169 | an option delta or length is read back modulo 65536, so it survives if and only if it fits 16 bits |
| CoapCodec.OptionRoundTrip | src/mongoose.c:11197-11252 | one option is read back, and never starts with the payload marker |
| CoapCodec.RoundTrip | src/mongoose.c:11271-11490 | a composed message is parsed back in every part, without an error, if and only if its option numbers and lengths fit 16 bits |
| CoapCodec.ParsedSmall | src/mongoose.c:11187-11262 | whatever is parsed has options that fit 16 bits |
| CoapWire.RefusedIs | src/mongoose.c:11372-11395 | a message is refused exactly for a type above 3, a token above 8 octets, a class above 7, a detail above 31, or its options, the first of these |
| CoapWire.OptionsAre | src/mongoose.c:11391-11413 | options are refused exactly if their numbers fall, or a step or a value is longer than 65804 |
| CoapWire.MessageIs | src/mongoose.c:11421-11490 | where type, token, class, detail, id and payload are in a composed message |
| CoapWire.FormsAre | src/mongoose.c:11141-11169 | the three forms of an option delta or length, in octets |
| CoapWire.OptionIs | src/mongoose.c:11430-11480 | where delta, length and value of an option are |
| CoapWire.RequestComposed | src/mongoose.c:11421-11490 | the request of figure 16 of RFC 7252, composed and parsed |
| CoapWire.ErrorsAre | src/mongoose.c:11187-11296 | which errors too few octets, another version, a long token, and a wrong or cut option are |
| Coap.CoapMessage.AddOption | src/mongoose.c:11003-11049 | the linked list stays acyclic with its tail pointer on the last node, and becomes the insertion of the option |
| Coap.CoapMessage.CalculatePacketSize | src/mongoose.c:11372-11419 | refuses what the composer must refuse, in its order, and otherwise computes the size |
| Coap.CoapMessage.Compose | src/mongoose.c:11421-11490 | appends the message's bytes, or says why not and leaves the buffer alone |
| Coap.CoapMessage.Parse | src/mongoose.c:11271-11296 | fills fields, flags and the linked options exactly as the packet says, or records the error |
| Coap.CoapMessage.ReadOptionAt | src/mongoose.c:11197-11251 | one option of the packet, or its error |
| Coap.CoapMessage.GetExtOpt | src/mongoose.c:11141-11169 | the extended value and its size, or the lack of data |
| DnsNames.UncompressName | src/mongoose.c:10537-10584 | on every packet where it ends: the result and every byte written, none of them behind the room given |
| DnsNames.EndsExactlyWhen | src/mongoose.c:10548-10578 | decompression ends if and only if it never meets more pointers in a row than the packet has octets |
| DnsNames.BackwardsEnds | src/mongoose.c:10554-10561 | pointers that refer strictly backwards are enough for it to end |
| DnsNames.SelfPointerNeverEnds | src/mongoose.c:10554-10561 | a pointer to itself is followed for ever |
| DnsNames.NameResolves | src/mongoose.c:10537-10584 | for a name with a meaning by section 4.1.4 of RFC 1035, the result is its labels joined by dots, or as much of that as fits |
| DnsNames.WrittenNameMeans | src/mongoose.c:10340-10367 | a written name means the labels it was written from, up to the first empty one |
| DnsNames.NameRoundTrip | src/mongoose.c:10340-10367 | a name with labels of up to 127 bytes, all that the writer takes, comes back if and only if it is empty or all its labels have 1 to 63 bytes |
| DnsNames.LongLabelLost | src/mongoose.c:10350-10355 | a name with a label of 64 to 127 bytes anywhere comes out of no packet, wherever its length octet points when read as a pointer |
| DnsNames.ResultHasNoLongRun | src/mongoose.c:10537-10584 | no result of decompression has 64 octets in a row without a dot, whatever the packet |
| DnsCodec.SkipWritten | src/mongoose.c:10459-10465 | the parser's walk over a written name stops on its zero octet |
| DnsCodec.RecordRoundTrip | src/mongoose.c:10369-10499 | a written record is read back, if and only if it is a question, has data, or is not the last thing in the packet |
| DnsCodec.RecordsRoundTrip | src/mongoose.c:10524-10532 | a list of records is read back record by record |
| DnsCodec.PacketRoundTrip | src/mongoose.c:10317-10535 | a packet of at most 32 questions and 32 answers is parsed into the same flags, counts and records |
| DnsCodec.PacketNamesRead | src/mongoose.c:10537-10584 | and each of its names decompresses to the text it was written from, its data are the bytes written |
| DnsWire.NameIs | src/mongoose.c:10340-10367 | a name of any labels is written as each of them behind its length, and a zero octet; it stops in front of the first label of more than 127 octets |
| DnsWire.TurnIs | src/mongoose.c:10548-10578 | what a pointer, a label and the end of a name are, and what the reader does with each |
| DnsWire.LastTurnIs | src/mongoose.c:10548-10578 | and on the last octet of a packet |
| DnsWire.QueryIs | src/mongoose.c:10414-10451 | the octets of a query: id, recursion desired, one question, name, type, class 1 |
| DnsWire.EntryIs | src/mongoose.c:10369-10412 | the octets of a record; those of an alias hold a name |
| DnsWire.BrokenIs | src/mongoose.c:10369-10412 | the octets left behind by a record that cannot be written |
| DnsWire.HeaderWritten | src/mongoose.c:10317-10328 | the twelve octets of a header |
| DnsWire.HeaderIs | src/mongoose.c:10513-10522 | where a response has its id, its flags, and the numbers of its records |
| DnsWire.LeftIs | src/mongoose.c:10501-10535 | and what a refused packet leaves of these |
| DnsWire.AnswerIs | src/mongoose.c:10453-10499 | where a record behind a pointer has its type, class, time to live and data |
| DnsWire.CutAnswerIs | src/mongoose.c:10453-10499 | what a cut one leaves |
| Dns.InsertHeader | src/mongoose.c:10317-10328 | twelve header octets are inserted at the position |
| Dns.EncodeName | src/mongoose.c:10340-10367 | a name is appended as labels; a label of more than 127 bytes fails, with what was appended before it |
| Dns.EncodeRecord | src/mongoose.c:10369-10412 | a record is appended, an alias with its length filled in afterwards; on failure, what was appended so far |
| Dns.SendQuery | src/mongoose.c:10414-10451 | one query packet is sent, with its length in front over TCP, or nothing |
| Dns.ParseResourceRecord | src/mongoose.c:10453-10499 | the parser's cursor yields `ParseRecord`, and what is left in the slot of a record that is cut off |
| Dns.DnsMessage.Parse | src/mongoose.c:10501-10535 | the tables are filled with exactly the packet's records, or the packet is refused; then they hold the records in front of the failure, what the failing one leaves, and nothing more |
| DnsCodec.SlotsHold | src/mongoose.c:10524-10532 | what a table holds after parsing: the longest list of records that can be parsed, one slot for the failing record, and empty ones |
| Resolver.Request.Handle | src/mongoose.c:10848-10913 | what each event does: the callback, a query at connecting or not before the timeout and none when the retries are used up, the recorded error, whether the connection is kept |
| Resolver.Run | src/mongoose.c:10848-10913 | over any run the callback is called at most once: with the first answer before the connection closes, or, when it closes, with the error recorded last; at most one query more than the retries |
| Resolver.FalseSuccess | src/mongoose.c:10848-10913 | a lookup is told as fine without a message if and only if no answer comes, the connection closes, and before that there is no packet, no timer, and no connect or poll with the retries used up |
| Resolver.FailedConnectToldFine | src/mongoose.c:10856-10911 | a connect that fails is told as fine |
| Resolver.ErrorTold | src/mongoose.c:10848-10913 | the last thing that goes wrong before the connection closes is what is told: a packet that is no answer as such, anything else as a timeout |
| Resolver.PacketTold | src/mongoose.c:10880-10904 | a packet is told exactly if it parses and has an answer; with any other the lookup fails for having none |
| Resolver.RetryExample | src/mongoose.c:10860-10878 | two retries and five seconds, step by step |
| Glob.BestSound | src/mongoose.c:9573-9617 | what the matcher chooses is a match |
| Glob.BestComplete | src/mongoose.c:9573-9617 | whatever matches is found, or something that gives an earlier star more text |
| Glob.MatchExact | src/mongoose.c:9573-9617 | without alternatives the result is -1 if and only if no prefix matches, and otherwise the length of the preferred match |
| Glob.FirstPositiveAlternative | src/mongoose.c:9578-9585 | with alternatives the result is the first positive one, else the last one's |
| Glob.CaseIgnored | src/mongoose.c:9612-9614 | the case of letters, of the pattern or of the string, changes no result |
| Glob.PatternExamples | src/mongoose.c:9587-9616 | what each octet of a pattern stands for |
| Glob.MatchPrefixN | src/mongoose.c:9573-9617 | the recursive matcher returns that result, on every pattern and string, and ends |
| Glob.MatchSimple | src/mongoose.c:9587-9616 | the cursor loop over a pattern without alternatives returns the greedy match's length, or -1 |
| Glob.MatchAfterStar | src/mongoose.c:9592-9611 | the star tries the longest text first, down to none |
| UriPath.NormIsRemoveDotSegments | src/mongoose.c:5021-5053 | the loop over components is remove_dot_segments, step for step of the standard |
| UriPath.NormalizedIsRemoveDotSegments | src/mongoose.c:5021-5053 | on every path that starts with a slash |
| UriPath.NormalizedProperties | src/mongoose.c:5021-5053 | the result is absolute, has no dot segment, and is left alone by a second normalisation |
| UriPath.SegmentsAre | src/mongoose.c:5021-5053 | what the standard's steps, and so normalisation, do segment by segment: one dot is left out, two take away the segment in front of them, if there is one, and dots at the end leave a slash |
| UriPath.Segmented | src/mongoose.c:4893-4903 | every path that starts with a slash is one of segments |
| UriPath.ParseComponent | src/mongoose.c:4893-4903 | the component's length and where the next one starts |
| UriPath.NormalizeUriPath | src/mongoose.c:5021-5053 | the path is normalised over itself, the write cursor never ahead of the read cursor; other bytes stay |
| Hashing.CounterAdds | src/mongoose.c:1378-1380 | the two words with their carry count bits modulo 2^64 |
| Hashing.Sha1.Update | src/mongoose.c:1374-1392 | after any updates that pass `BlockTest` the state has absorbed exactly the whole blocks of everything hashed, and the buffer holds the rest |
| Hashing.BlockTest | src/mongoose.c:1381-1382 | the test for a whole block is right if and only if the length and the bytes buffered together fit 32 bits |
| Hashing.Sha1.Final | src/mongoose.c:1394-1416 | the padding loop ends, and the blocks fed are those of the padded message of section 5.1.1 of FIPS 180-4 |
| Hashing.Sha1Digest | src/mongoose.c:9150-9160 | any split of a message gives the same digest, of the parts with their lengths as 32-bit words |
| Hashing.HashedWhole | src/mongoose.c:9150-9160 | all of the parts is hashed if and only if each is shorter than 2^32 bytes |
| Hashing.PaddedIs | src/mongoose.c:1394-1416 | every octet of a padded message |
| Hashing.LengthIs | src/mongoose.c:1394-1401 | the length of SHA-1 has its highest octet first, that of MD5 its lowest |
| Hashing.BlocksInOrder | src/mongoose.c:1382-1387 | blocks are taken in order, each with the state that the one before left |
| Hashing.Md5.Update | src/mongoose.c:919-952 | as for SHA-1, with the counter seeing the low 32 bits of the length |
| Hashing.Md5.Final | src/mongoose.c:954-982 | padding in one or two blocks, as sections 3.1 and 3.2 of RFC 1321 have it for the counted length |
| Hashing.Md5Digest | src/mongoose.c:985-1004 | any split of a message gives the same blocks, up to the counted length |
| Hashing.Md5LengthExact | src/mongoose.c:922-924 | the length field is right if and only if no update has 2^32 bytes or more |
| Base64.GroupDigits | src/mongoose.c:378-393 | the shifts and masks take out the four 6-bit digits of the 24-bit group |
| Base64.Encoder.Update | src/mongoose.c:402-412 | whole groups are out, the rest is kept |
| Base64.Encoder.Finish | src/mongoose.c:414-423 | what was put out is the encoding of everything, padded |
| Base64.EncodeParts | src/mongoose.c:395-423 | any split into updates puts out the text of one encoding of the whole |
| Base64.EncodeInto | src/mongoose.c:425-462 | the one-shot encoder writes the same text and a zero octet |
| Base64.RoundTrip | src/mongoose.c:425-543 | decoding an encoding uses all of it and gives the octets back |
| Base64.AlphabetIs | src/mongoose.c:365-376 | the alphabet in order, and what is refused |
| Base64.Vectors | src/mongoose.c:425-462 | vectors of section 10 of RFC 4648 |
| Base64.DecodeInto | src/mongoose.c:524-543 | the decoder writes exactly the octets of `Decode`, their number, and the characters used, on any input |
| SendPipeline.UserCannotTouchSystemFlags | src/mongoose.c:2077-2086 | the system flags after a protocol handler depend on its own changes alone, whatever the user's handlers do, if and only if all of these are called through the dispatcher as the connection's own |
| SendPipeline.SystemFlagsKept | src/mongoose.c:2077-2086 | they do as well when every handler that is called another way leaves the system flags alone |
| SendPipeline.DirectHandlerKeepsFlag | src/mongoose.c:9796-9804 | a user's handler called by the MQTT handler keeps a system flag that it sets; called through the dispatcher it does not |
| SendPipeline.StaysTcp | src/mongoose.c:1994-1997 | no handler turns the connection into one of another kind, or makes it connect again, when those called unmasked leave the system flags alone |
| SendPipeline.Connection.Send | src/mongoose.c:2494-2511 | what is sent is queued behind what was sent, and the write watcher runs while the socket is valid |
| SendPipeline.Connection.Call | src/mongoose.c:2049-2096 | delivering an event keeps the pipeline intact; the flags, events and data after it are those the handlers make, masked where the dispatcher masks them |
| SendPipeline.Connection.WriteToSocket | src/mongoose.c:3326-3383 | exactly the bytes the socket takes move from the queue to the wire, in order; an error asks for closing at once |
| SendPipeline.Connection.ReadFromSocket | src/mongoose.c:3392-3441 | the end of input closes after sending, an error at once; nothing is delivered to a connection that is closing at once |
| SendPipeline.Connection.HandleConn | src/mongoose.c:3500-3570 | connecting, then reading, then writing, each only when the flags then allow it: flags, events, data and wire after it |
| SendPipeline.Connection.CloseConn | src/mongoose.c:2133-2145 | the socket and the watchers are gone before the handlers hear of it, and nothing they send arms the watcher again |
| SendPipeline.Connection.CloseIfDue | src/mongoose.c:3646-3650 | a connection is closed if and only if closing at once is set, or closing after sending with nothing queued |
| SendPipeline.Connection.OnWritable | src/mongoose.c:3641-3654 | the write callback's whole effect; it closes if and only if that is due, and the watcher goes on exactly while something is queued |
| SendPipeline.Connection.OnReadable | src/mongoose.c:3656-3666 | the read callback's whole effect; it closes if and only if that is due |
| SendPipeline.Connection.OnTimer | src/mongoose.c:2004-2018 | the timer callback's whole effect: it gives up a slow connect, and closes if and only if that is due |
| SendPipeline.CalmWrite | src/mongoose.c:3341-3382 | a write with handlers that do not change when to close takes bytes off the queue, adds what the handlers send, and closes exactly when nothing is left |
| SendPipeline.OutcomeSound | src/mongoose.c:3641-3666 | over every interleaving: wire and queue together are what was sent; what was sent, written and told only grows; a queue has its watcher running; a closed connection was due to close, and is closed once for good |
| SendRuns.EndOfInput | src/mongoose.c:3429-3441 | a peer that closes its side changes nothing but the bit that asks for closing when everything is sent; the connection closes at once exactly if nothing is queued |
| SendRuns.NothingLost | src/mongoose.c:3429-3441 | and with enough writable sockets all that was queued is written before it closes |
| SendRuns.ImmediateOverRun | src/mongoose.c:3326-3570 | over any run, closing at once was asked for by a handler, or a connect or the socket failed |
| SendRuns.EventualOverRun | src/mongoose.c:3326-3570 | over any run, closing when everything is sent was asked for by a handler, or the peer closed its side |
| SendRuns.ClosedComplete | src/mongoose.c:3646-3650 | a connection that closes without that having been asked for at once has written everything it sent |
| SendRuns.FailureCloses | src/mongoose.c:3326-3441 | a socket that fails closes the connection at once |
| SendRuns.WouldBlock | src/mongoose.c:3326-3441 | a socket that only would block changes nothing |
| SendRuns.ConnectFails | src/mongoose.c:2004-2018 | a connect that fails, or takes more than five seconds, is told and closes the connection |
| SendRuns.Ordinary | src/mongoose.c:3326-3441 | reading, writing and the timer, when nobody asks for closing: exactly what is told, written, and left |
| SendRuns.SendsAre | src/mongoose.c:2494-2511 | what handlers send is the data of their sends, one behind the other, however deep the calls |
| SendRuns.WatcherIs | src/mongoose.c:2494-2511 | an event starts the write watcher exactly if one of its handlers sends, be it nothing, on an open connection |
| SendRuns.UserBits | src/mongoose.c:1994-1997 | the bits that a handler called through the dispatcher can set |
| SendPipeline.Run | src/mongoose.c:3641-3666 | any interleaving of callbacks and sends leaves the connection in the state `Outcome` computes, with what `OutcomeSound` says of it |
| SendPipeline.Flush | src/mongoose.c:3641-3654 | a connection that is to close after sending closes, with everything written, once the socket has been writable often enough, what its handlers send meanwhile included |

## Left out

- Sockets, the event loop itself, TLS, UDP, lwIP, SimpleLink, PIC32 and Windows layers, logging: foreign calls. A
  socket is the number of bytes it takes or gives.
- File serving, CGI, SSI, WebDAV, directory listings, digest authentication: driven by files and processes.
- The round functions of SHA-1 and MD5, and byte order inside a block: an arbitrary transform of a block.
- HTTP request parsing, header lookup and the parsing of header values: a multipart part's names are the text of its
  disposition line, and a part without such a line has unset names.
- The MQTT broker, access control lists, hexadecimal and date helpers: easy members, or not meant to be exact.
- Websocket.Connection.Receive: says nothing about a stream with a continuation that has no first fragment, a 64-bit
  length that wraps with its header, or a reassembled message of 4 GiB or more; there the source works outside its area.
- WsStream.MessagesDelivered: messages of two or more fragments are masked and have no control frame inside; the source
  marks both as not handled.
- WsStream.SegmentationIndependent: with defragmentation on; a connection that opts out delivers single frames.
- Chunked.Connection.HandleChunked: up to the first zero chunk of the connection, whose body length is never reset; no
  chunk extensions or trailers, which the source does not parse; nothing from a size on that wraps into its chunk.
- Mqtt.Connection.Receive: says nothing about a complete packet whose body is too short for its command, which the
  source reads past, or about a length field from which a byte past the data, or its fifth byte, may leave the int.
- Multipart.Reader.Continue: buffer lengths fit an int, as everywhere in this reader.
- DnsNames.UncompressName: a negative destination length is not modelled.
- DnsCodec.PacketRoundTrip: names of labels of 1 to 63 bytes, answers with data; compressed names are not written by
  this code, they are covered by DnsNames.NameResolves.
- Resolver.Request.Handle: the cleared send buffer after a failed send, and the hosts file and name server look-up.
- Hashing.Sha1.Update: the length of an update and the bytes buffered together fit 32 bits; otherwise the source writes
  behind its block, see Hashing.BlockTest.
- Coap.CoapMessage.Compose: sizes are unbounded, the source's wrap at a word.
- Glob.MatchPrefixN: patterns without a NUL, strings that end at their length.
- SendPipeline.Run: data queued from inside the accept handler, before the watchers exist, code that edits the send
  buffer directly, teardown of the manager, and the receive buffer's contents.
- SendPipeline.Connection.Call: a protocol handler itself sets neither the listening, UDP or TLS flag nor the connecting
  one, and a user's handler that it calls unmasked leaves the system flags alone; with one that does not, the connection
  may become one of another kind, which this model does not follow.
- SendPipeline.Flush: the handlers told of sent data do not change when the connection is to close.
- Lua bindings and the example programs: clients of this interface.
