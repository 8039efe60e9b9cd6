# Verification of the aa2acp protocol cores

This project models the protocol cores of a bridge between Android Auto and CarPlay and proves properties of them in
Dafny 4.11. `dafny verify dfyconfig.toml` checks everything.

Code that changes things step by step is modelled as Dafny classes and loops, each proved equal to a function of its
inputs or its old state; the results are lemmas about those functions, about whole runs where a protocol is concerned.

| file | what it is about |
|---|---|
| `ByteStrings.dfy`, `Framing.dfy`, `Lists.dfy` | bytes and numbers, incremental parsers that cannot observe how a stream is cut, and numbered frames |
| `LinkCodec.dfy`, `LinkMachine.dfy`, `PhoneLink.dfy` | the iAP2 link layer: codecs, state machine, and the object that runs it in place |
| `LinkWindow.dfy`, `LinkParsing.dfy`, `LinkDelivery.dfy`, `LinkHandshake.dfy` | its sending window, its byte-stream parser, delivery between two links over lossy channels, and how a link is established |
| `PlistFormat.dfy`, `PlistStructure.dfy`, `PlistBytes.dfy`, `PlistLimits.dfy`, `PlistCodec.dfy` | binary property lists: format, references, bytes and round trip, limits on arbitrary input, encoder and decoder objects |
| `PlistMeaning.dfy`, `PlistReading.dfy`, `PlistLayout.dfy` | what files by any writer mean, what the bytes of each object say, and the bytes that are written |
| `Csm.dfy` | control-session messages and their parameters |
| `CipherFrames.dfy`, `EventChannel.dfy`, `EventRequests.dfy` | encrypted frames, the request loop of the event channel, and the text of its requests |
| `FrameSocket.dfy`, `FrameDelivery.dfy` | the length-prefixed socket between worker and daemon, its order, and that it delivers |
| `Srp.dfy` | SRP-6a pair-setup (section 2.6 of RFC 5054) |
| `ReplayWindow.dfy`, `Microphone.dfy` | the replay window of the microphone receiver, and the flow control of the microphone channel |
| `AnnexB.dfy`, `SliceHeader.dfy`, `AccessUnits.dfy` | H.264: splitting (section B.1 of ITU-T H.264), first macroblock numbers (section 9.1), access units |
| `VideoQueue.dfy`, `AudioQueue.dfy` | the forwarding queues |
| `Tlv8.dfy` | TLV8 lists |

## How the source is stated

- Time is an integer the environment supplies; `PhoneLink::send_control` reads the clock itself, here it is a parameter.
- A transport is a function that says which attempts succeed; sent frames and delivered payloads are recorded in the state.
- Authenticated encryption is any pair of functions in which opening inverts sealing and a sealed text is 16 bytes longer;
  SHA-512 is any function to 64 bytes. Random bytes are parameters.
- Threads are steps between locks, taken in any order.
- 8-bit sequence numbers, 16- and 32-bit lengths, 64-bit counters and the 32-bit sums of the slice reader wrap as in C++;
  sums of `std::size_t` are unbounded.

## What the proofs found

- When slices are read, the loop at src/airplay/session.cpp:791-800 is meant to remove escape bytes but copies them all.
  It does no harm to macroblock numbers up to 4194302, and to 6316127; every other number is misread
  (`SliceHeader.EscapedCodeRead`). The largest picture of any level of the standard has 139264 macroblocks.
- An acknowledgement that names a number more than 128 behind the newest one removes the newest messages instead of the
  oldest (`LinkWindow.AcknowledgeBlock`); this is why the window has to be clamped to 128.
- A frame with an empty text looks like "no frame yet" to the readers of the control cipher (`CipherFrames.EmptyMeans`),
  so texts behind it stay in the buffer until more bytes come (`CipherFrames.EmptyTextStalls`).
- A request on the event channel with headers of more than 65533 bytes, which the limit allows, is taken or closes the
  channel depending on whether a frame ends within their last bytes (`EventRequests.BeginningJudged`,
  `EventRequests.CutRefused`).
- `process_challenge` aborts on a zero base, but with an honest server that never happens, and this does not need the
  modulus to be prime (`Srp.GeneratorPowerNonZero`).

## Model

| member | source | states |
|---|---|---|
| `LinkCodec.ByteSum` | src/iap2/link_layer.cpp:51-65 | the loop computes the 8-bit wrapping sum both checksum functions are built on |
| `LinkCodec.ChecksumCompletes` | src/iap2/link_layer.cpp:51-65 | appending a byte makes the sum valid if and only if the byte is the checksum of what stands before it |
| `LinkCodec.ChecksumSeesOneByte` | src/iap2/link_layer.cpp:51-65 | changing one byte of a valid string to another value always makes it invalid |
| `LinkCodec.WriteHeader` | src/iap2/link_layer.cpp:108-118 | the nine bytes written in place are those of the header encoding |
| `LinkCodec.HeaderRoundTrip` | src/iap2/link_layer.cpp:108-130 | decoding an encoded header gives the header back, for every length of nine or more |
| `LinkCodec.HeaderUnique` | src/iap2/link_layer.cpp:120-130 | every byte string the decoder accepts is the encoding of the header it returns |
| `LinkCodec.WriteLsp` | src/iap2/link_layer.cpp:67-83 | the parameters and all their sessions are written in place at their offsets |
| `LinkCodec.ReadLsp` | src/iap2/link_layer.cpp:85-106 | the loop reads the sessions in order and refuses what the source refuses |
| `LinkCodec.LspRoundTrip` | src/iap2/link_layer.cpp:67-106 | decoding encoded parameters gives them back, for every maximum length of nine or more |
| `LinkCodec.LspUnique` | src/iap2/link_layer.cpp:85-106 | every byte string the parameter decoder accepts is the encoding of its result |
| `PhoneLinkObject.PhoneLink.Start` | src/iap2/link_layer.cpp:137-146 | new state and frames sent equal the state machine's start step |
| `PhoneLinkObject.PhoneLink.SendControl` | src/iap2/link_layer.cpp:239-272 | accepts or refuses as the state machine does, and leaves exactly its state, dead link included |
| `PhoneLinkObject.PhoneLink.Tick` | src/iap2/link_layer.cpp:202-237 | marker, SYN and retransmissions as the state machine prescribes |
| `PhoneLinkObject.PhoneLink.ResendExpired` | src/iap2/link_layer.cpp:214-237 | the pass over the pending list in place equals the recursive pass |
| `PhoneLinkObject.PhoneLink.SendSyn` | src/iap2/link_layer.cpp:282-298 | one SYN outstanding at a time, with its number and deadline |
| `PhoneLinkObject.PhoneLink.EncodePacket` | src/iap2/link_layer.cpp:302-317 | the packet is the header and, if there is a payload, the payload and its checksum |
| `PhoneLinkObject.PhoneLink.HandlePacket` | src/iap2/link_layer.cpp:399-518 | the branches on acknowledgement, reset, SYN and data change the state as the state machine does |
| `PhoneLinkObject.PhoneLink.HandleSynPacket` | src/iap2/link_layer.cpp:422-473 | negotiation with the clamped parameters |
| `PhoneLinkObject.PhoneLink.HandleDataPacket` | src/iap2/link_layer.cpp:479-515 | in-order delivery, duplicate acknowledgement and selective skip |
| `PhoneLinkObject.PhoneLink.ProcessPackets` | src/iap2/link_layer.cpp:344-397 | the parsing loop that erases from the buffer equals the recursive parser, and terminates |
| `PhoneLinkObject.PhoneLink.Receive` | src/iap2/link_layer.cpp:148-200 | detection of the marker, the buffer limit and the parsing loop, as one step of the state machine |
| `LinkWindow.AcknowledgedExact` | src/iap2/link_layer.cpp:339-342 | for numbers between 128 behind and 127 ahead of each other the wrapped 8-bit comparison agrees with the true one; up to a whole window further it says the opposite |
| `LinkWindow.AcknowledgeBlock` | src/iap2/link_layer.cpp:416-420 | an acknowledgement up to 128 behind the newest number removes exactly the oldest messages up to it; any other removes exactly the newest ones |
| `LinkWindow.AcknowledgeKeepsBlock` | src/iap2/link_layer.cpp:416-420 | the pending list stays the contiguous block of latest numbers if and only if the acknowledgement is at most 128 behind, or so far off that it removes everything |
| `LinkWindow.RunWithinLimits` | src/iap2/link_layer.cpp:137-272 | over every run of starts, sends, ticks and reads: while the link lives the negotiated window is between 1 and 128 and never exceeded, no message is resent more often than allowed, nothing is outstanding before Normal; and a dead link stays dead |
| `LinkWindow.NewLinkWithinLimits` | src/iap2/link_layer.cpp:137-272 | the same limits for every state a new link can get into |
| `LinkWindow.WindowIsBlock` | src/iap2/link_layer.cpp:202-473 | from a new link on, through the handshake and with any peer: as long as the acknowledgements handled meet the condition of AcknowledgeKeepsBlock, the outstanding messages of an established link are at most 128 and are those with the latest consecutive numbers |
| `LinkWindow.ResendEffect` | src/iap2/link_layer.cpp:214-237 | a retransmission pass leaves the link alive if and only if no expired message is out of retries and the transport takes all; it then sent exactly the expired frames, byte for byte and in order, and charged each one retry |
| `LinkWindow.SilentPeerKillsLink` | src/iap2/link_layer.cpp:202-237 | if no read takes the oldest message off the window, then, whatever is sent and read in between, the link is dead once the ticks that find that message due outnumber the retries it has left |
| `LinkParsing.ProcessMatches` | src/iap2/link_layer.cpp:344-397 | on any buffer, the packets handled are those of a reference parser that drops one byte at a time |
| `LinkParsing.FromTheFirstByte` | src/iap2/link_layer.cpp:148-200 | from the first byte on, marker detection included, the link is what the reference makes of the whole stream |
| `LinkParsing.ChunkingInvisible` | src/iap2/link_layer.cpp:148-200 | two ways to cut the same arbitrary bytes into reads of at most 64 KiB, each read at its own time, lead to the same phase, the same frames sent, the same payloads delivered and, for a living link, the same state but for the time of its next SYN |
| `LinkParsing.ReadsNeverOverflow` | src/iap2/link_layer.cpp:148-165 | with reads of at most 64 KiB the overflow branch is never taken, in any phase |
| `LinkParsing.FramesParsed` | src/iap2/link_layer.cpp:302-317 | a list of encoded packets is parsed as exactly their headers and payloads, until the link dies |
| `LinkParsing.FramesInChunks` | src/iap2/link_layer.cpp:302-397 | encoded packets, cut into reads anywhere, leave the link as handling the packets one after the other does |
| `LinkDelivery.InOrderExactlyOnce` | src/iap2/link_layer.cpp:202-515 | two established links over channels that lose and repeat frames but keep their order: for every run the payloads delivered are a prefix of those accepted, across any number of wrap-arounds; no message leaves the window undelivered; the window is the block of latest numbers, at most 128 |
| `LinkDelivery.EverythingArrives` | src/iap2/link_layer.cpp:202-515 | from any state of any run in which both ends are established, if the transports accept what comes, retries are left and the receiver allows the lengths, there are ticks and reads and nothing else after which every accepted payload is delivered and the window is empty |
| `LinkDelivery.OneStep` | src/iap2/link_layer.cpp:202-515 | every send, tick, delivery, acknowledgement, loss and repetition keeps the invariant over unbounded message numbers |
| `LinkDelivery.NextOnCircle` | src/iap2/link_layer.cpp:479-515 | within 127 behind and 128 ahead, the one number that follows modulo 256 is the number that follows |
| `LinkDelivery.SenderReadsAck` | src/iap2/link_layer.cpp:416-420 | reading an acknowledgement of message i drops the messages up to i from the window of an established sender, and nothing else changes |
| `LinkDelivery.ReceiverReadsFrame` | src/iap2/link_layer.cpp:479-515 | an established receiver delivers a data frame if and only if it is the next message, and acknowledges the last one delivered in any case; a frame over its length limit kills it |
| `LinkHandshake.PacketLayout` | src/iap2/link_layer.cpp:302-317 | a packet byte by byte: start bytes, length high byte first, control, the two numbers, session, and two checksums that complete their sums |
| `LinkHandshake.LspLayout` | src/iap2/link_layer.cpp:67-83 | link parameters byte by byte |
| `LinkHandshake.EstablishedExactly` | src/iap2/link_layer.cpp:399-473 | from Negotiate exactly one kind of packet leads to Normal: ACK without SYN or RST whose number, minus that of the SYN outstanding, is below 128 modulo 256; such a packet changes nothing else but what it acknowledges |
| `LinkHandshake.LinkEstablished` | src/iap2/link_layer.cpp:137-473 | a new link, started or woken by the marker, that reads the peer's SYN and an acknowledgement of its own SYN 100 is established, and exactly then; it has the peer's parameters within literal limits, the peer's number and first session of kind 0; the frames it has sent are given byte by byte |
| `LinkHandshake.EndsMeet` | src/iap2/link_layer.cpp:137-473 | two new links can be established so as to face each other: what delivery assumes does occur |
| `LinkHandshake.DataTaken` | src/iap2/link_layer.cpp:479-515 | data on an established link: taken if it is the first or one ahead modulo 256, delivered if it is of the control session, and the last one taken is acknowledged in any case |
| `LinkHandshake.SynRepeated` | src/iap2/link_layer.cpp:422-431 | a SYN on an established link is acknowledged and changes nothing |
| `LinkHandshake.ResetKills` | src/iap2/link_layer.cpp:406-413 | a reset kills the link in any state |
| `LinkHandshake.SendAccepted` | src/iap2/link_layer.cpp:239-272 | a control message is accepted if and only if link, length, window and transport allow it; the frame, its number and its deadline are given |
| `LinkHandshake.Started` | src/iap2/link_layer.cpp:137-146 | starting a new link sends the marker and then the SYN, byte by byte; the first refusal kills it |
| `LinkHandshake.TickBeforeNormal` | src/iap2/link_layer.cpp:202-214 | marker every 1000 ms in Detect, SYN with the same number every 500 ms in Negotiate |
| `LinkHandshake.DamagedIgnored` | src/iap2/link_layer.cpp:381-397 | a packet whose payload does not add up is taken off the buffer and changes nothing else |
| `LinkHandshake.OverfullDies` | src/iap2/link_layer.cpp:148-158 | more than 131072 bytes unread kill the link |
| `LinkHandshake.UnreadableSyn` | src/iap2/link_layer.cpp:422-473 | a SYN changes nothing if it carries no parameters, or ones that allow no packet of nine bytes |
| `PlistCodec.AppendBE` | src/airplay/bplist.cpp:14-18 | the shifting loop appends the big-endian bytes |
| `PlistCodec.ReadNumber` | src/airplay/bplist.cpp:20-29 | the shifting loop reads the big-endian number, with its refusals |
| `PlistCodec.Encoder.Add` | src/airplay/bplist.cpp:69-75 | a value takes the next node number, and its nodes are appended after all nodes already there |
| `PlistCodec.Encoder.AddArray` | src/airplay/bplist.cpp:121-130 | the reserved node is patched with the numbers of the items, whose nodes follow in order |
| `PlistCodec.Encoder.AddDictionary` | src/airplay/bplist.cpp:131-144 | all keys first, then all values; the reserved node is patched with both lists of numbers |
| `PlistCodec.Encoder.Finish` | src/airplay/bplist.cpp:77-99 | node bytes, reference and offset tables of the chosen widths, and the trailer |
| `PlistCodec.EncodeBplist` | src/airplay/bplist.cpp:321-324 | the object-built file is the encoding that the round trip is about |
| `PlistCodec.Decoder.ReadObject` | src/airplay/bplist.cpp:203-309 | recursion with both counters bumped in place equals the reference resolution, result and budget used |
| `PlistCodec.Decoder.ReadArray` | src/airplay/bplist.cpp:287-295 | the first item that cannot be read ends the array, with the budget it used |
| `PlistCodec.Decoder.ReadDictionary` | src/airplay/bplist.cpp:296-306 | entries are added in file order, an earlier key wins, and the value is read even when the key could not be |
| `PlistCodec.Decoder.DecodeAll` | src/airplay/bplist.cpp:153-177 | the checks on header, trailer and offset table, and the top object |
| `PlistCodec.DecodeBplist` | src/airplay/bplist.cpp:326-329 | decoding by the object is decoding by the reference |
| `PlistBytes.NodeReads` | src/airplay/bplist.cpp:100-144 | reading back any node the encoder writes, whatever the widths, gives the object it was written for |
| `PlistBytes.FinishOpens` | src/airplay/bplist.cpp:77-99 | the trailer and the offset table of an encoded file lead to every node |
| `PlistStructure.ObjectResolves` | src/airplay/bplist.cpp:203-309 | following the references of the numbered nodes of a value rebuilds the value and charges its exact size |
| `PlistStructure.InsertAllSorted` | src/airplay/bplist.cpp:296-306 | adding the entries of a dictionary in key order gives the dictionary back |
| `PlistLayout.LessMeans` | src/airplay/bplist.cpp:296-306 | the order of keys: the shorter of two of which one begins with the other, or the smaller first byte that differs |
| `PlistBytes.RoundTrip` | src/airplay/bplist.cpp:67-309 | every value of depth at most 64, at most 65536 nodes with keys and at most 8 MiB of bytes is decoded from its encoding exactly |
| `PlistLimits.DecodedWithinLimits` | src/airplay/bplist.cpp:179-309 | whatever the bytes, a decoded value meets the three limits and has its keys in order |
| `PlistLimits.DecodedSurvives` | src/airplay/bplist.cpp:149-324 | on arbitrary bytes: encoding what was decoded and decoding it again gives the same value |
| `PlistLimits.DecodeVisitsBounded` | src/airplay/bplist.cpp:179-209 | on arbitrary bytes, self-references included, there are at most 196803 visits to objects |
| `PlistMeaning.FirstEntryWins` | src/airplay/bplist.cpp:296-306 | entries in any order: the keys of the dictionary are those of the entries, ascending, and beside each is the value of the first entry with that key |
| `PlistMeaning.ObjectMeans` | src/airplay/bplist.cpp:203-309 | within the budgets an object, shared references included, is decoded to what following its references means, and charged its size |
| `PlistMeaning.ObjectDenotes` | src/airplay/bplist.cpp:203-309 | and nothing else is decoded: a decoded object has such a meaning, within the budgets |
| `PlistMeaning.OneMeaning` | src/airplay/bplist.cpp:203-309 | a tree of references means one value only |
| `PlistMeaning.DecodedMeaning` | src/airplay/bplist.cpp:149-309 | any bytes are decoded to a value if and only if the top object denotes, at most 64 deep, with at most 65536 nodes and 8 MiB, a tree that means this value |
| `PlistReading.OpenedExactly` | src/airplay/bplist.cpp:149-178 | which bytes are opened as a file, if and only if: magic word, widths, counts, top object and offset table, in numbers |
| `PlistReading.ReadAsSaid` | src/airplay/bplist.cpp:203-309 | what an object is read as, if and only if its bytes say so: every marker, every width of counts and numbers, and the references, in numbers; anything else is malformed |
| `PlistReading.DecodedAsSaid` | src/airplay/bplist.cpp:149-309 | the three together: any bytes are decoded to a value if and only if they are a file whose objects, as their bytes say, denote within the budgets a tree that means this value |
| `PlistLayout.LeafLayout` | src/airplay/bplist.cpp:44-120 | each kind of leaf byte by byte, with its marker and width |
| `PlistLayout.ArrayLayout` | src/airplay/bplist.cpp:121-130 | an array: marker 0xa0, its count, the numbers of its items |
| `PlistLayout.DictionaryLayout` | src/airplay/bplist.cpp:131-144 | a dictionary: marker 0xd0, its count, the numbers of all keys, then of all values |
| `PlistLayout.FileLayout` | src/airplay/bplist.cpp:77-99 | a file of one leaf: magic word, leaf, offset, trailer, all given |
| `PlistLayout.UnitsForm` | src/airplay/bplist.cpp:250-272 | a text in 16-bit units, the high byte first, becomes the shortest UTF-8 forms of its units, one after the other |
| `PlistLayout.UnitsRead` | src/airplay/bplist.cpp:250-272 | a text in 16-bit units is read and charged three bytes a unit |
| `PlistLayout.FloatRead` | src/airplay/bplist.cpp:221-234 | a float of four bytes is widened |
| `Csm.WriteMessage` | src/iap2/csm.cpp:30-43 | the header is written in place and the payload copied behind it; an over-long payload gives nothing |
| `Csm.WriteParameter` | src/iap2/csm.cpp:45-57 | the parameter header and value are written in place and sent as a message; an over-long value gives nothing |
| `Csm.FirstBytesParameter` | src/iap2/csm.cpp:59-77 | the walk over the parameters finds what the reference finds |
| `Csm.FirstParameterFound` | src/iap2/csm.cpp:45-77 | of the parameters in front of the first broken one, the value found is that of the first one with the id; nothing behind a broken one is found |
| `Csm.Decoder.Push` | src/iap2/csm.cpp:174-182 | bytes are appended, or everything is dropped at the 128 KiB limit |
| `Csm.Decoder.TakeNext` | src/iap2/csm.cpp:184-216 | the resynchronising loop returns the next message and leaves the buffer as the reference does, and terminates |
| `Csm.NextMatches` | src/iap2/csm.cpp:184-216 | each call consumes what a parser dropping single bytes would, up to bytes that start no message |
| `Csm.ChunkingInvisible` | src/iap2/csm.cpp:174-216 | on arbitrary bytes in reads of at most 64 KiB, the messages are those of the whole stream, and no read overflows |
| `Csm.SameStreamSameMessages` | src/iap2/csm.cpp:174-216 | two ways to cut the same stream give the same messages |
| `Csm.MessagesInChunks` | src/iap2/csm.cpp:30-43 | encoded messages, cut anywhere, are received as exactly that list |
| `Csm.ParameterArrives` | src/iap2/csm.cpp:45-77 | a parameter sent as a message is found unchanged by the receiver |
| `Csm.WireForm` | src/iap2/csm.cpp:45-57 | a parameter sent as a message byte by byte, and nothing when it is too long |
| `Csm.MessageForm` | src/iap2/csm.cpp:30-43 | a message byte by byte, and nothing when it is too long |
| `Csm.OverfullDropped` | src/iap2/csm.cpp:174-182 | more than 131072 bytes unread are dropped together with the read that brought them |
| `CipherFrames.NonceForCounter` | src/airplay/control_cipher.cpp:10-16 | four zero bytes and the counter, low byte first |
| `CipherFrames.NonceRepeats` | src/airplay/control_cipher.cpp:10-37 | two frames of a run share a nonce if and only if a multiple of 2 to the 64 frames lies between them |
| `CipherFrames.ControlCipher.Encrypt` | src/airplay/control_cipher.cpp:23-38 | the frame, and the write counter, which moves only with a frame |
| `CipherFrames.ControlCipher.Decrypt` | src/airplay/control_cipher.cpp:39-54 | the text, and the read counter, which moves only with a text |
| `CipherFrames.ControlCipher.DecryptOne` | src/airplay/control_cipher.cpp:56-70 | a whole frame is taken off the buffer; otherwise nothing changes |
| `CipherFrames.FrameForm` | src/airplay/control_cipher.cpp:10-38 | a frame: the length low byte first, then the sealed text under the nonce of four zero bytes and the counter low byte first |
| `CipherFrames.EmptyMeans` | src/airplay/control_cipher.cpp:56-70 | an empty result means that no whole frame is there, or that a frame without text was taken |
| `CipherFrames.ReadUpToEmpty` | src/airplay/control_cipher.cpp:56-70 | a read that brings in all frames delivers the texts before the first empty one, and the frames after it stay in the buffer |
| `CipherFrames.TextsInChunks` | src/airplay/control_cipher.cpp:23-70 | non-empty texts, sealed in turn and cut into reads anywhere, are received as exactly that list, and the counter is the number of frames |
| `CipherFrames.EmptyTextStalls` | src/airplay/control_cipher.cpp:56-70 | when all frames arrive at once, every text that carries something is delivered if and only if none of them stands behind an empty one |
| `CipherFrames.StalledInput` | src/airplay/control_cipher.cpp:56-70 | with a sealing that meets all that is assumed, a text behind an empty one is there in full and is not delivered |
| `EventChannel.Examine` | src/airplay/session.cpp:566-637 | header end, header lines, the content length and its limits, as the loop over the lines finds them |
| `EventChannel.Service.OnRead` | src/airplay/session.cpp:506-663 | one read of the socket: the limit on encrypted bytes and the loop over the frames |
| `EventChannel.Service.OnText` | src/airplay/session.cpp:551-643 | one decrypted frame: the limit on plaintext, the verdict and what follows from it |
| `EventChannel.Service.OnRequest` | src/airplay/session.cpp:644-662 | the request is handed on, answered and taken off the buffer; a failed answer closes the channel |
| `EventChannel.RequestAlone` | src/airplay/session.cpp:566-635 | a request taken off the front is, by itself, a request of exactly its own size |
| `EventChannel.NothingLost` | src/airplay/session.cpp:541-663 | after any reads the requests handed on followed by the buffer are all decrypted bytes in order; each request is its headers and as many bytes as they announce and has one reply, in order; the buffer keeps to 1 MiB |
| `EventChannel.RepliesArrive` | src/airplay/session.cpp:645-656 | the other end receives exactly the replies, however its reads are cut |
| `EventRequests.DecimalRoundTrip` | src/airplay/session.cpp:615-624 | a number printed in decimal, with leading zeros or not, is read as that number |
| `EventRequests.RequestRead` | src/airplay/session.cpp:566-637 | header lines with CR LF, one of which announces n in any letter case, with blanks and leading zeros or not, an empty line and n bytes are a request of exactly that size with the value of the last CSeq line; fewer bytes are the beginning of one, and more than 1 MiB in all is refused |
| `EventRequests.MissingRefused` | src/airplay/session.cpp:627-632 | without a content length there is no request |
| `EventRequests.RepeatedRefused` | src/airplay/session.cpp:609-613 | two content lengths are refused, whatever they say |
| `EventRequests.WrongRefused` | src/airplay/session.cpp:615-622 | a content length that is empty, no number or over 1 MiB is refused |
| `EventRequests.ReplyRead` | src/airplay/session.cpp:646-650 | the reply is itself a message with an empty body and gives the CSeq of the request back |
| `EventRequests.TextTaken` | src/airplay/session.cpp:557-662 | what a decrypted text does, in numbers: over 1 MiB, or no request, it closes the channel; a beginning waits; a whole request is handed on and answered, or handed on and the channel closed |
| `EventRequests.ForgedFrameCloses` | src/airplay/session.cpp:541-552 | a whole frame that does not open closes the channel and nothing of it is handed on |
| `EventRequests.BeginningJudged` | src/airplay/session.cpp:566-582 | the beginning of a request is waited on if and only if it has at most 64 KiB or reaches past the headers; otherwise it closes the channel |
| `EventRequests.CutRefused` | src/airplay/session.cpp:567-582 | a request that is taken whole and refused when a frame ends in front of the last three bytes of its headers |
| `EventRequests.RequestsServed` | src/airplay/session.cpp:527-663 | a peer that sends requests, each in one frame or cut into several, has exactly them handed on in order and answered with their own numbers, however the socket cuts the stream; nothing stays behind |
| `FrameSocket.FrameSocketWriter.Send` | src/bridge/carplay_ipc.cpp:245-259 | accepts exactly what is sendable and fits, and keeps the byte total exact |
| `FrameSocket.FrameSocketWriter.Pop` | src/bridge/carplay_ipc.cpp:271-276 | the oldest frame, its bytes taken off the total |
| `FrameSocket.FrameSocketWriter.Requeue` | src/bridge/carplay_ipc.cpp:277-290 | back to the front if not stopping and there is room, otherwise lost |
| `FrameSocket.Header` | src/bridge/carplay_ipc.cpp:306-309 | the four shifted bytes are the big-endian length |
| `FrameSocket.OnlyWhole` | src/bridge/carplay_ipc.cpp:211-225 | of the bytes of one frame, the receiver takes nothing but the whole for a frame, and never asks for a byte of the next |
| `FrameSocket.StepKeeps` | src/bridge/carplay_ipc.cpp:185-320 | every step of either end keeps the invariant on queue, connections and order |
| `FrameSocket.DeliveredInOrder` | src/bridge/carplay_ipc.cpp:185-320 | over any run of sends, connects, partial writes, failures, drops and stops, the frames handed on are an in-order part of those accepted, none twice and none spliced; the queue keeps its 256 frames and 16 MiB and its byte total is exact |
| `FrameSocket.NothingLost` | src/bridge/carplay_ipc.cpp:185-320 | if nothing fails, what has been handed on is the first part of what was accepted and all the rest is on its way |
| `FrameDelivery.WireForm` | src/bridge/carplay_ipc.cpp:305-312 | a frame on the wire byte by byte |
| `FrameDelivery.ReceiverMeans` | src/bridge/carplay_ipc.cpp:207-219 | what the receiver makes of bytes, in numbers: a length of zero or over 4 MiB ends the connection |
| `FrameDelivery.SendMeans` | src/bridge/carplay_ipc.cpp:245-259 | a frame is accepted if and only if it is not empty, has at most 4 MiB, and 256 frames and 16 MiB allow it |
| `FrameDelivery.FailedIsNext` | src/bridge/carplay_ipc.cpp:277-320 | after a failed write the frame is the next one again if and only if nobody asked to stop and it still fits; otherwise it is lost |
| `FrameDelivery.AllUnderWayArrive` | src/bridge/carplay_ipc.cpp:185-320 | from any state of any run in which the writer's connection, if any, is still served: when both ends go on and nothing fails, exactly the frames under way are delivered, in order, behind those that had been |
| `FrameDelivery.EverythingArrives` | src/bridge/carplay_ipc.cpp:185-320 | after any run without failures there are steps of the two ends after which everything accepted has been delivered, in order |
| `Srp.SrpClient.ProcessChallenge` | src/airplay/srp.cpp:73-171 | the three fields after a challenge, aborts included, are those of the protocol |
| `Srp.SrpClient.VerifyServer` | src/airplay/srp.cpp:174-180 | accepts exactly the proof over its own key, proof and session key |
| `Srp.ExponentExact` | src/airplay/srp.cpp:153-155 | reducing the exponent modulo the prime changes nothing, because it is below the prime |
| `Srp.GeneratorPowerNonZero` | src/airplay/srp.cpp:148-152 | no power of the generator is zero, so the base of an honest server never is |
| `Srp.SharedAgree` | src/airplay/srp.cpp:98-150 | the client's shared number is (A v^u)^b of that pairing |
| `Srp.HonestServerAgrees` | src/airplay/srp.cpp:73-180 | with a server stated by the formulas of the standard alone (k, v, u, both keys, the session key and both proofs spelled out over the hash): the client has the key and proof of the pairing and accepts exactly the server's proof, if salt, server key and scramble are not empty or zero; otherwise it has none and accepts none |
| `Srp.RefusedExactly` | src/airplay/srp.cpp:73-152 | which challenges are refused, if and only if, spelled out over the hash and the numbers: no salt, a server key of the wrong width, zero or not below the prime, a scramble of zero, or nothing left of the server key |
| `Srp.PairingExists` | src/airplay/srp.cpp:98-180 | there is such a pairing for any salt and secrets |
| `Srp.AirPlayValid` | src/airplay/srp.cpp:15-29 | the 3072-bit prime with a 64-byte hash and a 32-byte secret meets what these results need |
| `ReplayWindow.MicrophoneReceiver.Receive` | src/airplay/session.cpp:1616-1669 | one packet from the socket: size, version, payload type, decryption, the window, and the payload with its sample bytes swapped in place |
| `ReplayWindow.NonceAt` | src/airplay/session.cpp:1640-1644 | the shifting loop reads the eight bytes as a little-endian number |
| `ReplayWindow.PeerIsHeard` | src/airplay/session.cpp:1626-1644 | a packet sealed by the peer is authentic, with its own nonce and text |
| `ReplayWindow.SwapSamples` | src/airplay/session.cpp:1665-1668 | the in-place loop swaps each pair |
| `ReplayWindow.WindowExact` | src/airplay/session.cpp:1640-1662 | after any run of nonces the mask is exactly the set of those seen within 64 of the highest |
| `ReplayWindow.PassesIfNew` | src/airplay/session.cpp:1640-1662 | a packet passes if and only if its nonce has not been seen and none has been seen that is 64 or more above it |
| `ReplayWindow.NeverTwice` | src/airplay/session.cpp:1640-1662 | no nonce passes twice in any run |
| `ReplayWindow.HeardIfNew` | src/airplay/session.cpp:1616-1669 | after any packets, the next one is handed on if and only if it is authentic, its length is even, and its nonce is new to all authentic packets before it; what is handed on is its text with the two bytes of every sample turned around |
| `ReplayWindow.OtherPacketsIgnored` | src/airplay/session.cpp:1616-1626 | a packet under 36 bytes, or of another version or payload type, changes nothing |
| `ReplayWindow.NoReplay` | src/airplay/session.cpp:1616-1669 | in any run of packets, one whose nonce an authentic packet before it had is not handed on; in particular no packet is handed on twice |
| `SliceHeader.CopyPayload` | src/airplay/session.cpp:785-800 | the loop that looks for escape bytes copies every byte, escape bytes included |
| `SliceHeader.FirstMbInSlice` | src/airplay/session.cpp:785-822 | the bit loops read the Exp-Golomb code, with their refusals, and no 32-bit sum wraps |
| `SliceHeader.NoWrap` | src/airplay/session.cpp:809-821 | for codes of up to 31 zero bits twice the leading power fits in 32 bits, so no sum of the reader wraps |
| `SliceHeader.ReadExactly` | src/airplay/session.cpp:785-822 | of any unit a number is read if and only if its bits from the second byte on begin with a whole code of at most 31 zero bits, and it is the number of that code |
| `SliceHeader.EscapedCodeRead` | src/airplay/session.cpp:785-822 | whatever follows in the slice, the number read from the escaped unit is the one written if and only if it is at most 4194302 or is 6316127 |
| `SliceHeader.FirstWrongNumber` | src/airplay/session.cpp:791-800 | 4194303 is read wrongly: a concrete slice |
| `AnnexB.SplitInSession` | src/airplay/session.cpp:749-783 | the session's splitter returns the units of the byte stream |
| `AnnexB.SplitInForwarder` | src/bridge/media_forwarders.cpp:246-276 | the forwarder's splitter returns the same units on every input |
| `AnnexB.UnitsClean` | src/airplay/session.cpp:749-783 | whatever the bytes, the units are non-empty and hold no start code |
| `AnnexB.JoinSplits` | src/airplay/session.cpp:749-783 | joining units with start codes of three or four bytes in any mix and splitting gives them back if and only if none is empty, none holds a start code, and none in front of a three-byte code ends in a zero |
| `AnnexB.LeadingIgnored` | src/airplay/session.cpp:749-783 | bytes before the first start code belong to no unit |
| `AccessUnits.AccessUnits` | src/airplay/session.cpp:824-851 | the loop that flushes in place builds the groups |
| `AccessUnits.GroupsExact` | src/airplay/session.cpp:824-851 | grouping keeps every non-empty unit in order; no unit of a group breaks off from those before it; a group ends only where it has to |
| `AccessUnits.BoundaryNeeded` | src/airplay/session.cpp:838-847 | by kinds and first macroblocks: every group but the first begins with a delimiter, or, a slice standing in the group before it, with a parameter set or a slice whose first macroblock is 0 or unreadable |
| `AccessUnits.NoBoundaryMissed` | src/airplay/session.cpp:838-847 | inside a group no unit behind the first is of that sort |
| `VideoQueue.VideoSocketForwarder.PushUnit` | src/bridge/media_forwarders.cpp:278-342 | a keyframe replaces the queue, another frame is queued or dropped when full; parameter sets are kept |
| `VideoQueue.VideoSocketForwarder.OnClientConnected` | src/bridge/media_forwarders.cpp:344-374 | the queue a client starts with, and the configuration it gets |
| `VideoQueue.VideoSocketForwarder.TakeFront` | src/bridge/media_forwarders.cpp:157-174 | the oldest frame, its bytes taken off the total |
| `VideoQueue.ConfigSplits` | src/bridge/media_forwarders.cpp:344-352 | a decoder that splits the configuration gets the two parameter sets back |
| `VideoQueue.PushMeans` | src/bridge/media_forwarders.cpp:278-342 | by the kinds of its units: what a frame does to queue, keyframe and parameter sets, with the limits of 600 frames and 16 MiB |
| `VideoQueue.ConnectMeans` | src/bridge/media_forwarders.cpp:344-374 | what is in front of a client that connects, and the bytes of the configuration |
| `VideoQueue.QueueDrains` | src/bridge/media_forwarders.cpp:157-174 | a connected client gets all that is queued, in order, if the socket takes it |
| `VideoQueue.StepKeeps` | src/bridge/media_forwarders.cpp:157-374 | every push, connect, delivery and disconnect keeps the invariant |
| `VideoQueue.ClientsSeeOrder` | src/bridge/media_forwarders.cpp:157-374 | over any run: a client gets frames in push order, each once; one that connects after a keyframe is started at a keyframe, and as long as it has got nothing the latest keyframe is next; limits hold and the byte total is exact |
| `AudioQueue.MediaSocketForwarder.Enqueue` | src/bridge/media_forwarders.cpp:61-76 | the frame is queued after as few of the oldest as possible are dropped, and the byte total is exact |
| `AudioQueue.MediaSocketForwarder.TakeFront` | src/bridge/media_forwarders.cpp:157-174 | the oldest frame, its bytes taken off the total |
| `AudioQueue.LatestKept` | src/bridge/media_forwarders.cpp:61-174 | over any run of packets and of the forwarding loop: the queue holds the latest packets without a gap, the newest included; those taken are earlier ones, in order, each once; none is missing but those that had to make room; the limits hold |
| `AudioQueue.FewestLeave` | src/bridge/media_forwarders.cpp:61-76 | a frame that is queued takes the place of the fewest oldest frames that make room for it within the limit and 16 MiB; none if it fits |
| `Microphone.MicrophoneSession.SendAudio` | src/aa/wired_receiver.cpp:342-360 | at most two packets are kept, the oldest going first, and a drain is asked for only if none is posted |
| `Microphone.MicrophoneSession.DrainAudio` | src/aa/wired_receiver.cpp:361-384 | one drain without interruption: what is sent, whether another is asked for, and the flag |
| `Microphone.MicrophoneSession.SendAudioOnStrand` | src/aa/wired_receiver.cpp:397-414 | sent, kept as the one pending packet, or dropped |
| `Microphone.MicrophoneSession.OnAck` | src/aa/wired_receiver.cpp:331-340 | the pending packet goes out |
| `Microphone.MicrophoneSession.OnOpenRequest` | src/aa/wired_receiver.cpp:313-322 | opening or closing empties queue and pending packet and ends what was in flight; the posted flag stays |
| `Microphone.FlowIsOrderly` | src/aa/wired_receiver.cpp:313-414 | over any interleaving: the flag is set if and only if one drain is promised, scheduled or running, and audio in the queue implies it; pending audio implies a send in flight; at most one packet is unacknowledged; packets go out in the order offered, each once |
| `Microphone.QueueEmpties` | src/aa/wired_receiver.cpp:341-384 | from any state of any run, steps of the posts and the strand alone empty the queue |
| `Microphone.NewestGoesOut` | src/aa/wired_receiver.cpp:331-414 | from any state of any run on an open channel, posts, strand and acknowledgements bring everything under way to its end, and the newest packet is the last one that went out |
| `Microphone.OfferedGoesOut` | src/aa/wired_receiver.cpp:331-414 | a packet offered on an open channel in any state of any run is queued, the older of two making room for it; it goes out, and is the last one to, when posts, strand and acknowledgements do their part |
| `Tlv8.EncodeTlv8` | src/airplay/rtsp.cpp:149-162 | the nested loops write all fragments |
| `Tlv8.DecodeTlv8` | src/airplay/rtsp.cpp:164-179 | the loop appends fragments by type and drops everything when one runs past the end |
| `Tlv8.RoundTrip` | src/airplay/rtsp.cpp:149-179 | decoding an encoded list maps each type to all its values in order, and a type whose values are all empty is absent |
| `Tlv8.FragmentForm` | src/airplay/rtsp.cpp:149-162 | where each byte of a value stands, and the type and length in front of each fragment |
| `Tlv8.AnyBytes` | src/airplay/rtsp.cpp:164-179 | any bytes are fragments followed by less than one |
| `Tlv8.DecodedMeans` | src/airplay/rtsp.cpp:164-179 | what any bytes decode to: nothing if a fragment is cut short, otherwise the types of the fragments with the values of each in order |
| `Framing.ChunkingIrrelevant` | src/iap2/link_layer.cpp:344-397 | for any parser whose takes do not depend on later bytes, the cutting of a stream into reads cannot be observed |

## Left out

- LinkDelivery.InOrderExactlyOnce: data flows one way and pure acknowledgements come back; both ends start established, because two such links never finish a handshake with each other (src/iap2/link_layer.cpp:422-463).
- LinkDelivery.OneStep: channels lose and repeat frames but do not reorder or corrupt them.
- LinkDelivery.EverythingArrives: says that the rest can arrive, not that a scheduler makes it arrive.
- LinkParsing.FramesParsed: resynchronisation after junk is only claimed to be that of the reference parser, since the code promises no more.
- PlistBytes.RoundTrip: strings are bytes and doubles are 64-bit patterns; widening a float to a double is an arbitrary function.
- PlistLimits.DecodeVisitsBounded: bounds visits to objects, not the time of each.
- CipherFrames.TextsInChunks: says nothing about bytes that were not sealed by the peer, which end a session.
- ReplayWindow.WindowExact: the 64-bit mask is given by its bits.
- EventChannel.NothingLost: a reply the socket refuses is a parameter; logging of requests is left out.
- FrameSocket.DeliveredInOrder: a connection may fail or be dropped at any point; deadlines and polling are part of that choice.
- FrameDelivery.EverythingArrives: says that the rest can arrive, not that a scheduler makes it arrive.
- EventRequests.RequestsServed: two requests that share a frame are left out, as at most one is taken for each frame; the second waits for the next frame.
- VideoQueue.ClientsSeeOrder: a frame handed to the socket either reaches the client or ends the connection; the length-prefixed bytes on that socket are those of the frame socket and not modelled again.
- Microphone.FlowIsOrderly: acknowledgements match sends within one open session; late acknowledgements of a closed session are left out.
- Microphone.QueueEmpties: the second drain in front of this one, in `WiredReceiver::Impl`, has the same form and is left out.
- Srp.HonestServerAgrees: failures of the library's number routines are left out.
- `send_access_unit` with its AVCC framing and `avcc_config`: concatenations with fixed headers.
- `BootstrapSession` and `CarPlayProbe`: short branch-by-branch machines.
- Sockets, D-Bus, USB, FFmpeg, configuration, logging and the management pages: input and output.
