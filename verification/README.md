# curlws: a verified model of the WebSocket engine

curlws is a WebSocket client (RFC 6455) driven by libcurl callbacks. This project models the
engine with libcurl removed and proves what it keeps over all runs. `dafny verify
dfyconfig.toml` checks everything.

Code that changes state in place is modelled by classes whose methods follow the C functions
loop by loop (`Receive`, `Send`, `Memory`, `Client`, `Sha1`, and the codec and validator
methods of `Frames` and `Utf8`). Each is proved to compute a function on values
(`ReceiveSpec`, `SendSpec`, `ClientSpec`, `Sha1Spec`, `Frames.Decode`, `Utf8.WholePrefix`), and
the theorems are about those functions and runs of them.

| files | part of the engine |
|---|---|
| Bytes, Events | octets, exclusive or, big-endian numbers; flags and what is reported to the user |
| Utf8, Utf8Theory | the validator and the grammar of section 4 of RFC 3629 |
| Frames, FrameTheory | header codec, masking, validation |
| ReceiveSpec, Receive | the streaming receiver |
| TextTheory, FailFast, TextLimits | what happens to text inside a frame, and where it falls short |
| Handlers, ReceiveSafety, Reassembly | message reassembly; safety over all inputs |
| Fragments, RfcExamples | what is reported for a frame, and the examples of RFC 6455 in octets |
| ChunkTheory, Delivery | independence of the way the octets are cut |
| ServerStream, Refusals, Reference | what a legal stream delivers, how any other ends, and the parse of a whole stream |
| TextFragments, SpanningText | text messages whose characters span frames |
| Memory, SendSpec, Send, QueueRuns | block pool and send queue, also over all runs |
| ClientSpec, Client, ClientTheory, CallCodes | the send and close calls, their answers and their masking keys |
| Connection, Handshake, CloseCodes | both halves together over all runs, callbacks included; closing |
| PingTheory | the default answer to pings |
| SenderGrammar, PeerTheory, MessageTheory, TextCalls, Oversize | what goes out, what the server makes of it, what is text, and what blocks it |
| Sha1Spec, Sha1 | the hash used for the handshake key |
| Sha1Words, Sha1Machine, Sha1Example | its operators bit by bit, its compression in machine words, and a published digest |

## Main results

- Receiver: for every byte stream and every way of cutting it, fragments follow the grammar and
  text messages are valid UTF-8 (`ReceiveSafety.EveryRunIsSafe`). Every stream with ASCII text,
  legal or not, complete or not, and however it is cut, tells exactly what a parse of the whole
  stream says (`Reference.AsciiIsReference`; `Reference.HarmlessIsReference` for other text).
- Text: octet by octet the connection stays open exactly as long as the text can be completed
  (`FailFast.OpenWhileViable`). Messages whose characters span frames are delivered exactly where
  `SpanningText.DeliveredExactly` says, and accepted exactly where `SpanningText.OpenExactly` says.
- Cutting: `ChunkTheory.ChunkingIndependence` for cuts that are harmless, with the exact
  condition inside a frame (`TextTheory.CutExactly`, `TextLimits.PieceCutExactly`), and without
  conditions on the cuts for ASCII text (`Delivery.AsciiChunkingIndependence`).
- Sender: every accepted message arrives, and the close after them
  (`MessageTheory.AcceptedIsDelivered`), whatever the frame size and the sizes in which curl
  takes the octets, also if it was sent from a callback, unless memory runs out in the middle
  of a message. The queue keeps frames whole and in order over any interleaving of ordinary and
  urgent frames and drains (`QueueRuns.EveryRunIsALine`).
- Text messages of the client are UTF-8 at the server (`TextCalls.TextArrives`), and each frame
  is masked with a random key of its own (`Client.KeysInOrder`, `Client.NoKeyTwice`).
- Closing and pausing: `Connection.EveryRunIsSafe`, with no lost wakeup,
  `Connection.RunLater`, `Connection.ZeroAtMostOnce`, `Handshake.HandshakeEnds`, and which close
  frames are accepted (`CloseCodes.StatusExactly`, `Handshake.CloseAccepts`).
- SHA-1: the incremental hash equals the fold of the compression over the bit string of
  FIPS 180-2 (`Sha1.Sha1Context.Result`, `Sha1Spec.PaddingIsFips`); the compression is that of
  32-bit words (`Sha1Machine.CompressionIsMachine`) and gives the published digest of "abc"
  (`Sha1Example.DigestOfAbc`).

## Where the code does not do what it is for

The model follows the code. Each item is a theorem about it, with the exact condition.

- A chunk that completes a split character loses the octets behind that character
  (src/receive.c:267-299): `TextLimits.ConservedExactly`, `TextLimits.CutLosesOctets`.
- A message may end inside a character, which then spoils the next text message:
  `TextLimits.EndsInsideCharacterExactly`, `TextLimits.EndsInsideCharacter`,
  `SpanningText.SpoilsTheNext`.
- Text that is not UTF-8 is accepted if its fault lies behind a character that a frame completes,
  which is never looked at: `SpanningText.OpenExactly`, `SpanningText.AcceptsNoText`.
- The early test refuses the lone first octets 0xE0 and 0xF0 (src/utf8.c:92-103), so a valid
  message can be refused depending on how it is cut: `Utf8Theory.MaybeValidExact`,
  `TextLimits.HeaderAloneRefusesE0`.
- An urgent close is refused (src/frame_senders.c:48) but recorded as queued
  (src/curlws.c:246-250), and the handshake never ends: `Handshake.UrgentCloseNeverEnds`.
- A first or last part of a message that finds no memory is remembered as sent
  (src/frame_senders.c:136): `SenderGrammar.DataFrameExactly`,
  `SenderGrammar.OrphanContinuation`.
- A part of a text stream that ends inside a character is cut short although the call succeeds
  (src/curlws.c:295-309), even to nothing: `MessageTheory.StreamTextKeepsAllExactly`,
  `MessageTheory.StreamTextLosesAll`.
- The sender does not remember the type of the message in progress, so that a part of a binary
  stream can continue a text, which then is not UTF-8 (src/curlws.c:414-420):
  `TextCalls.CallKeepsTextExactly`, `TextCalls.MixedStreamIsNoText`.
- A frame of a stream that is too large for its buffer blocks the queue, and curl is given no
  octets (src/send.c:102): `Oversize.AcceptedButBlocking`, `MessageTheory.FitsExactly`,
  `Connection.GivesNothingExactly`.
- A frame that begins inside a character and goes beyond it loses the octets behind that
  character, as a chunk does: `SpanningText.DeliveredExactly`.
- `cws_sha1` cuts the length to 32 bits (src/sha1_internal.c:42): `Sha1.CwsSha1`.
- `SHA1Input` returns success when it spoils the context at 2^64 bits
  (src/sha1/sha1.c:150-162): `Sha1.Sha1Context.Input`.
- Documentation: include/curlws/curlws.h:447-470 allows a reason of 123 octets and promises an
  urgent close for negative codes; the code allows 122 (`Handshake.CloseAccepts`) and never
  sends an urgent one.

## Model

| member | source | states |
|---|---|---|
| `Utf8.CheckChar` | src/utf8.c:117-158 | the masks and comparisons of one turn of the validator's loop accept exactly the well-formed characters of section 4 of RFC 3629 |
| `Utf8.Validate` | src/utf8.c:111-166 | the loop returns success with the length of the longest whole prefix, or failure with the length untouched |
| `Utf8.MaybeValid` | src/utf8.c:90-108 | the padded buffer is accepted exactly when the octets padded with 0x80 are a well-formed character |
| `Utf8Theory.WholePrefixIsGrammar` | src/utf8.c:111-166 | success with length k if and only if the first k octets are whole well-formed characters and the octets at k, if any, are too few for the character their first octet announces |
| `Utf8Theory.TextIsWhole` | src/utf8.c:111-166 | the whole string is accepted if and only if it is a sequence of well-formed characters |
| `Utf8Theory.WholePrefixSplit` | src/utf8.c:111-166 | validating a concatenation is validating the first string up to its last whole character and then the rest together with the second string |
| `Utf8Theory.MaybeValidExact` | src/utf8.c:90-108 | the early test accepts the beginning of a character if and only if it can be completed and is not the single octet 0xE0 or 0xF0 |
| `Utf8Theory.LoneLeadsAreViable` | src/utf8.c:92-103 | those two octets can be completed: the early test is wrong about them |
| `Utf8Theory.CharRoundTrip` | src/utf8.c:111-166 | every accepted character decodes to a Unicode scalar value and encoding that value gives its octets back |
| `Utf8Theory.ScalarRoundTrip` | src/utf8.c:111-166 | every Unicode scalar value has an encoding that is accepted and decodes to it |
| `Utf8Theory.TextIsEncodedScalars` | src/utf8.c:111-166 | a string is accepted in whole if and only if it is the encoding of some sequence of scalar values |
| `Frames.ReadLength` | src/frame.c:232-260 | the longer length forms: how many octets are missing, which malformed form it is, or the length |
| `Frames.FrameDecode` | src/frame.c:184-277 | the cursor walk computes the decoding function: minus the missing octets, the error code with a zeroed frame, or the frame and the header's size |
| `Frames.WriteHeader` | src/frame.c:86-140 | writes the header of section 5.2 of RFC 6455, with the shortest length form and the key, and touches nothing after it |
| `Frames.FrameEncode` | src/frame.c:86-150 | 0 exactly when the buffer is too small; otherwise header and masked payload and no octet more |
| `FrameTheory.DecodeEncoded` | src/frame.c:184-277 | decoding an encoded header, whatever follows it, returns the same frame and stops at its payload |
| `FrameTheory.EncodeDecoded` | src/frame.c:184-277 | re-encoding any accepted header, masked or not, reproduces its octets: one header per frame |
| `FrameTheory.AcceptedLengthIsShortest` | src/frame.c:232-260 | only the shortest length form is accepted and no length of 2^63 or more |
| `FrameTheory.DecodeIsStable` | src/frame.c:194-272 | an answer other than "more" does not change when more octets follow |
| `FrameTheory.DecodeDeficit` | src/frame.c:194-272 | while fewer octets arrive than were asked for no error is reported and exactly the rest is asked for; octets held and asked for never exceed 14 |
| `FrameTheory.DeficitStaysInHeader` | src/receive.c:160-210 | following the deficit never takes a payload octet and ends at the header's end |
| `FrameTheory.MaskingIsInvolutive` | src/frame.c:145-149 | masking twice with the same key gives the payload back (section 5.3 of RFC 6455) |
| `FrameTheory.ReceivedIsValid` | src/frame.c:36-73 | on decoded frames the validation accepts exactly what sections 5.1, 5.2 and 5.5 of RFC 6455 allow for the direction |
| `Receive.Receiver.ErrorClose` | src/receive.c:455-472 | shuts the receiver and reports it, once |
| `Receive.Receiver.HandleClose` | src/receive.c:102-143 | the close payload is judged as the specification says, which `CloseCodes.StatusExactly` and `CloseCodes.NoStatus` spell out, and the receiver ends closed |
| `Receive.Receiver.ProcessFrameHeader` | src/receive.c:160-210 | the header buffer, its counters and the result agree with decoding all octets collected so far |
| `Receive.Receiver.ProcessControlFrame` | src/receive.c:218-259 | collects the payload in place and reports it when complete |
| `Receive.Receiver.ProcessTextStream` | src/receive.c:261-337 | the stash in utf8Buf and the part handed on are those of the text function |
| `Receive.Receiver.SendDataFrame` | src/receive.c:339-384 | fragment flags, stream type, current frame and report are those of the specification |
| `Receive.Receiver.ProcessDataFrame` | src/receive.c:392-413 | takes the octets of the frame and hands them on |
| `Receive.Receiver.ProcessFrame` | src/receive.c:416-452 | one pass in place refines the pass on values |
| `Receive.Receiver.ReceiveCb` | src/receive.c:63-99 | the loop refines the receive function, reports all octets as taken, and does nothing while redirected or closed |
| `ReceiveSpec.HeaderStepOk` | src/receive.c:160-210 | a header step takes an octet or closes with 1002, and keeps the receive state well formed |
| `ReceiveSpec.TextStepOk` | src/receive.c:261-337 | the stash invariant: held and needed octets together are the size of the pending character, and nothing is held when none is needed |
| `ReceiveSpec.ProcessFrameKeepsWf` | src/receive.c:416-452 | every pass keeps the receive state well formed and takes at least one octet or closes |
| `ReceiveSafety.NothingIsSkipped` | src/receive.c:86-95 | the loop's exit without progress never drops octets of an open connection |
| `ReceiveSafety.ClosedIsSilent` | src/receive.c:81-84 | once closed the receiver reports nothing and stays closed, over any further callbacks |
| `ReceiveSafety.EveryRunIsSafe` | src/receive.c:63-452 | for all octets in all pieces: fragments follow the grammar of section 5.4 of RFC 6455, text messages are whole valid UTF-8 (section 8.1), and between calls the flags say whether a message is in progress |
| `TextTheory.SentIsText` | src/receive.c:261-337 | whatever is handed on of a text frame is whole valid characters |
| `TextTheory.CutExactly` | src/receive.c:261-337 | looking at the text octets of a frame in two calls gives the same result as in one if and only if the cut is harmless, by a condition on the pending character and the octets around the cut |
| `TextTheory.BytewiseIsViable` | src/receive.c:267-333 | octet by octet the text function accepts exactly the beginnings of valid texts, and what it hands on followed by the stash is what it has seen |
| `FailFast.OpenWhileViable` | src/receive.c:63-99 | fed the payload of a text frame octet by octet, the receiver stays open if and only if the octets so far are the beginning of some valid text, and then it has handed on all of them but those of the pending character |
| `TextLimits.PieceCutExactly` | src/receive.c:261-337 | the same as an observation: within a frame a cut changes neither state nor what any user is told if and only if the condition holds |
| `TextLimits.ConservedExactly` | src/receive.c:267-299 | no octet of an accepted piece is lost if and only if no character was pending or the piece does not go beyond it |
| `TextLimits.EndsInsideCharacterExactly` | src/receive.c:267-299 | exactly when the last piece of a message is accepted with a character unfinished |
| `TextLimits.LoneLeadRefusedExactly` | src/utf8.c:90-108 | a first octet followed by an empty piece is refused if and only if it is 0xE0 or 0xF0, although it can be completed |
| `TextLimits.CutLosesOctets` | src/receive.c:267-299 | a concrete text message that loses its last octet when it is cut inside its first character |
| `TextLimits.EndsInsideCharacter` | src/receive.c:267-299 | a concrete message that is not UTF-8 is reported, and its octet stays pending for the next message |
| `TextLimits.HeaderAloneRefusesE0` | src/utf8.c:90-108 | a concrete valid message that is refused or delivered depending on where the octets are cut |
| `ChunkTheory.CutTheorem` | src/receive.c:63-99 | receiving a and then b reaches the same state and tells the same as receiving a ++ b, for any octets and any state, unless the cut breaks a text payload harmfully |
| `ChunkTheory.ChunkingIndependence` | src/receive.c:63-99 | the same for any number of callbacks |
| `Delivery.AsciiChunkingIndependence` | src/receive.c:63-99 | for every byte stream whose text payloads are ASCII, well formed or not, every way of cutting it gives the same outcome |
| `ServerStream.HeaderArrives` | src/receive.c:160-210 | a header fed in as many passes as it needs leads to its payload in one state |
| `ServerStream.StreamThen` | src/receive.c:63-452 | legal frames without a close leave the receiver idle in the message they end in, whatever follows; what follows is judged from there |
| `ServerStream.StreamDelivers` | src/receive.c:63-452 | any legal sequence of frames received in one piece tells exactly the messages, pings, pongs and close of an independent frame-by-frame account, and leaves the receiver idle in the message in progress, or closed after a close frame |
| `ServerStream.DeliveredHoweverCut` | src/receive.c:63-452 | the same for ASCII text however the octets are cut |
| `ServerStream.DeliveredIfHarmless` | src/receive.c:63-452 | the same for any text whose cuts are harmless |
| `Refusals.HeaderRefused` | src/receive.c:160-210 | a header that cannot be decoded, or whose frame may not come now, closes with 1002 and nothing else, in however many passes it is taken |
| `Refusals.RefusedExactly` | src/receive.c:416-452 | the receiver answers a frame with nothing but a shutdown if and only if the frame is not legal at its place in the stream |
| `Refusals.FrameRefused` | src/receive.c:102-143 | a frame that is not legal closes with exactly the code of its fault and none of it is told |
| `Refusals.StreamRefused` | src/receive.c:63-452 | after any legal frames a frame that is not legal ends the stream: the messages before it are told, then the shutdown and its code, and nothing of what follows |
| `Refusals.StreamUndecodable` | src/receive.c:160-210 | the same for octets that are no header at all: a reserved bit, an unknown opcode, a length not in its shortest form or of 2^63 or more |
| `Refusals.RefusedHoweverCut` | src/receive.c:63-452 | a refused frame after legal ones, however the octets are cut, if the cuts are harmless; `Reference.AsciiIsReference` has ASCII text without that condition |
| `Reference.TellsReference` | src/receive.c:63-452 | any byte stream received in one piece, complete or not, legal or not, with anything after its end, tells what a parse of the whole stream says, and the receiver closes exactly when that parse does |
| `Reference.AsciiTextIsWire` | src/receive.c:261-337 | the text octets the receiver looks at are ASCII if and only if those that the parse of the whole stream finds are |
| `Reference.AsciiIsReference` | src/receive.c:63-452 | for every byte stream whose text payloads are ASCII and every way of cutting it, the user is told exactly what the parse of the whole stream says, and the connection is shut exactly when it says so |
| `Reference.HarmlessIsReference` | src/receive.c:63-452 | the same for any text, if the cuts are harmless and no frame but the last of a message ends inside a character |
| `TextFragments.AllArriveExactly` | src/receive.c:261-337 | all octets of a valid text split over frames are handed on if and only if no frame that begins inside a character goes beyond it or fails the early test |
| `TextFragments.AcceptedExactly` | src/receive.c:261-337 | for any payloads: they are all accepted if and only if each frame leaves the beginning of a text (the last one a text) of the octets that are looked at, or stays inside the character in which it begins and passes the early test; what is handed on are the octets looked at, up to the character pending |
| `TextFragments.HarmlessAccepted` | src/receive.c:261-337 | if no frame goes beyond the character in which it begins and all pass the early test, the payloads are accepted if and only if they are a text or the last frame stays inside the character in which it begins |
| `TextFragments.SpoilsNext` | src/receive.c:267-299 | with octets pending between messages every text that is not empty is refused |
| `SpanningText.MessageTells` | src/receive.c:339-384 | one text message in any number of frames, with control frames in between, tells what these tell and one message of all that was handed on, or a shutdown with 1007 at the frame that is refused; a close frame cuts it short |
| `SpanningText.DeliveredExactly` | src/receive.c:261-384 | a valid text message whose characters may span frames, with control frames in between, is told as the independent account says if and only if every frame begins harmlessly |
| `SpanningText.OpenExactly` | src/receive.c:261-384 | whatever its payloads are, exactly which text messages leave the connection open, and what the user is given and what stays pending |
| `SpanningText.HarmlessIsOpen` | src/receive.c:261-384 | without frames that begin harmfully, the connection stays open if and only if the message is valid or its last frame stays inside the character in which it begins |
| `SpanningText.AcceptsNoText` | src/receive.c:267-299 | the octets C3 and A9 x in two frames are accepted whatever x is, and delivered without x |
| `SpanningText.SpoilsTheNext` | src/receive.c:267-299 | after a message that ends inside a character the next text message, although valid, is refused with 1007 unless it is empty |
| `Handlers.TextMessagesAreText` | src/handlers.c:76-119 | over any events within the grammar, every text message put together is valid UTF-8 |
| `Handlers.DefaultHandler.OnFragment` | src/handlers.c:76-119 | the buffer and the callbacks made are those of the reference: one message per FIRST..LAST, of the type of its first fragment, with all payloads in order |
| `Handlers.DefaultHandler.HandleAll` | src/handlers.c:76-119 | over any events within the grammar the callbacks made are the messages of the reference, in order |
| `Reassembly.RunShutsOnce` | src/receive.c:455-472 | over any octets in any pieces the shutdown is reported at most once, and last |
| `Reassembly.Replay` | src/handlers.c:76-119 | behind the receiver, for any octets in any pieces, the handler makes exactly the callbacks of the reference |
| `Fragments.FrameExactly` | src/receive.c:339-384 | a legal frame other than a close, received whole, is reported as exactly one event with its flags and payload, and an empty middle fragment as none |
| `RfcExamples.MaskedBits` | src/frame.c:145-149 | masking combines each bit of the payload with the bit of the key at its place (section 5.3 of RFC 6455) |
| `RfcExamples.TextFromServer` | src/frame.c:184-277 | the octets of the text message of section 5.7 of RFC 6455 |
| `RfcExamples.FragmentsFromServer` | src/frame.c:184-277 | the same message in two fragments |
| `RfcExamples.PingFromServer` | src/receive.c:218-259 | the ping of that section |
| `RfcExamples.BinaryOf256` | src/frame.c:232-260 | its binary message of 256 octets |
| `RfcExamples.BinaryOf65536` | src/frame.c:232-260 | its binary message of 64 kilobytes |
| `RfcExamples.TextToServer` | src/frame.c:86-150 | the text message as the client sends it, masked |
| `RfcExamples.PongToServer` | src/frame.c:86-150 | and the pong |
| `Memory.ApplyKeepsPool` | src/memory.c:121-198 | one allocation or release keeps both lists free of repetitions and of each other, and covers all blocks |
| `Memory.PoolNeverLeaks` | src/memory.c:121-198 | over any sequence of them, double and out-of-order releases included, the blocks on the two lists are exactly the first ones and those obtained from malloc, none twice, and no more than were ever in use at once |
| `Memory.DoubleFree` | src/memory.c:121-155 | releasing a block twice in a row is releasing it once |
| `Memory.BlockPool.Alloc` | src/memory.c:168-198 | the linked lists are spliced as the pool on sequences says; null exactly when the free list is empty and malloc fails |
| `Memory.MemFree` | src/memory.c:121-155 | the same for release, whichever list the block is on |
| `Memory.BlockPool.Cleanup` | src/memory.c:77-106 | every block ever made is given back exactly once |
| `SendSpec.FillIsNextOctets` | src/send.c:164-211 | whatever the buffer size, curl gets exactly the next octets of the queue seen as one string, which ends with the first close frame; completing that frame empties the queue |
| `SendSpec.FillProgress` | src/send.c:164-211 | curl gets nothing if and only if it asked for nothing or the head did not fit its buffer |
| `SendSpec.FifoPending` | src/send.c:109-134 | an ordinary frame is added at the end of that string, unless a close frame or an oversize frame stands before it |
| `SendSpec.UrgentPending` | src/send.c:109-126 | an urgent frame comes next, but never inside a frame that is partly sent, and nothing comes after it if it is a close frame |
| `QueueRuns.EveryRunIsALine` | src/send.c:82-211 | over any interleaving of queueing, urgent or not, and drains of any size: what is out and what is still to be sent is a string of whole frames, none inside another; nothing follows a close frame but frames queued after it was out; every frame queued has one place and ordinary frames keep their order |
| `QueueRuns.UrgentIsNext` | src/send.c:109-126 | in any state of such a run an urgent frame goes before everything of which no octet is out |
| `Send.SendQueue.SendFrame` | src/send.c:82-134 | the linked list with its pool block holds the old queue with the new frame at its place, or is unchanged without memory |
| `Send.SendQueue.FillOutgoingBuffer` | src/send.c:164-211 | the loop over the linked list writes and leaves what the function on the queue says; the blocks in use stay exactly those of the nodes |
| `Send.SendQueue.Destroy` | src/send.c:64-73 | empties the queue and gives every block back |
| `Client.Cws.FrameSenderControl` | src/frame_senders.c:38-85 | result code and new state of the sender are those of the function on values; a frame that is made takes the next random key and nothing else does; it finds memory exactly if malloc gives some or a block is free |
| `Client.Cws.FrameSenderData` | src/frame_senders.c:88-149 | the same for data frames |
| `Client.Cws.DataBlockSender` | src/data_block_sender.c:39-76 | the fragmentation loop refines its recursive form, and its frames take the next random keys in their order |
| `Client.Cws.SendBlkText` | src/curlws.c:266-286 | the same for the text call, which `TextCalls.BlkTextExactly` says what it accepts |
| `Client.Cws.SendStream` | src/curlws.c:400-423 | the same for a part of a stream |
| `Client.Cws.SendStrmText` | src/curlws.c:295-309 | the same for a part of a text stream |
| `Client.Cws.Normalize` | src/curlws.c:315-372 | error, or status and urgency, of the inputs to cws_close; which inputs are refused and why is in `Handshake.CloseAccepts` and `Handshake.CloseRefuses` |
| `Client.Cws.Close` | src/curlws.c:219-253 | queues the close frame and marks the close as queued |
| `Client.Cws.ErrorClose` | src/receive.c:455-472 | the sender's half of closing on the peer's close or fault |
| `Client.Cws.SendCb` | src/send.c:224-257 | what curl is given and what becomes of the bits and the queue, the pause flag included (`Connection.PausesExactly`) |
| `Client.Cws.Unpause` | src/send.c:140-147 | the pause flag is dropped and curl told to go on exactly where the flag was set |
| `Client.Cws.SendMasked` | src/frame_senders.c:140-148 | the frame goes out masked with the next random key, which is used up even if there is no memory |
| `Client.LoggedKeys` | src/frame_senders.c:146 | the frames a call has accepted carry the next random keys in their order |
| `Client.BlockKeys` | src/data_block_sender.c:55-75 | each frame of a block has a key of its own |
| `Client.KeysInOrder` | src/frame_senders.c:146 | unless a frame was lost for want of memory, the i-th frame accepted on a connection is masked with the i-th random key |
| `Client.NumberedInOrder` | src/frame_senders.c:146 | in any case later frames have later keys, with as many skipped as frames were lost |
| `Client.NoKeyTwice` | src/frame_senders.c:146 | no random key masks two frames |
| `CallCodes.PingExactly` | src/frame_senders.c:38-85 | which error a ping or pong is refused with, and the frame with opcode 0x9 or 0xA that it queues otherwise |
| `CallCodes.PartExactly` | src/curlws.c:400-423 | for any options and any state: which error a part of a stream is refused with, in which order, and the frame that it queues otherwise |
| `CallCodes.BlockExactly` | src/data_block_sender.c:39-76 | the same for the errors of a block |
| `TextCalls.BlkTextExactly` | src/curlws.c:266-286 | a text is refused as invalid if and only if it is not UTF-8, whatever the state, and then changes nothing |
| `TextCalls.TextRoundTrip` | src/curlws.c:266-286 | on an open connection with no message in progress and enough memory every UTF-8 string is accepted and arrives as that text |
| `TextCalls.CallKeepsTextExactly` | src/curlws.c:266-309 | a call that succeeds keeps text messages UTF-8 if and only if it does not add other octets to one unseen |
| `TextCalls.TextArrives` | src/curlws.c:266-309 | over every run without such a call, callbacks included, all text messages that the server puts together are UTF-8 |
| `TextCalls.CheckedRun` | src/curlws.c:266-309 | text calls, binary blocks and first parts of binary streams are never such calls |
| `TextCalls.MixedStreamIsNoText` | src/curlws.c:400-423 | a concrete run in which a part of a binary stream continues a text and what arrives is not UTF-8 |
| `ClientTheory.PipeAdd` | src/send.c:82-134 | accepting a frame keeps accepted frames, queue and octets given out consistent |
| `ClientTheory.PipeFill` | src/send.c:164-211 | so does giving octets to curl |
| `Connection.ReceiveShuts` | src/receive.c:455-472 | the receiver shuts the connection at most once, as its last act, with a code and a reason that cws_close accepts |
| `CloseCodes.StatusExactly` | src/receive.c:102-143 | a close frame with a status, at any place of a stream, is reported and answered if and only if the status is one of 1000 to 1003, 1007 to 1011 and 3000 to 4999 and the reason is UTF-8; otherwise it is a fault with 1002 or 1007 |
| `CloseCodes.StatusTold` | src/receive.c:102-143 | the same as what the user is told |
| `CloseCodes.NoStatus` | src/receive.c:102-143 | a close frame without a status is reported with 1005 and answered without one; half a status is a fault with 1002 |
| `PingTheory.PingsAreShort` | src/receive.c:218-259 | over any octets, no ping longer than a control frame allows is reported |
| `PingTheory.PingsAreAnswered` | src/handlers.c:122-129 | with the default handler every ping received before a close was asked for is answered by one pong with its octets, in order, and nothing else is queued; if the same octets hold the close or a fault, it comes after the pongs |
| `Connection.QueuedIsDeaf` | src/frame_senders.c:48-110 | once a close has been asked for, no call of the user queues a frame or changes anything |
| `Connection.ReactKeeps` | src/receive.c:102-143 | whatever the user's callbacks call while events are reported, the invariant is kept, and only the shutdown marks the close as received |
| `Connection.ActKeeps` | src/internal.h:25-30 | one step of any kind keeps the invariant of the connection and takes nothing back |
| `Connection.RunLater` | src/internal.h:25-30 | between any two points of any run: bits are only gained, frames and octets only added, no frame once a close was asked for, no octet once the close frame is out |
| `Connection.EveryRunIsSafe` | src/send.c:224-257 | in every reachable state: frames are valid and the close frame is the last; curl has a prefix of their encodings; SENT means all of it and an empty queue; CLOSED needs SENT and RECEIVED; and curl waits, from the answer that makes it pause until it is told to go on, exactly while the pause flag is set and only with nothing to give (no lost wakeup) |
| `Connection.PausesExactly` | src/send.c:234-248 | an offer makes curl wait if and only if there is nothing to send and nothing to end, and then sets the flag |
| `Connection.GivesNothingExactly` | src/send.c:235-257 | curl is given no octets if and only if the handshake is complete, it asked for none, or the head did not fit |
| `Connection.ZeroAtMostOnce` | src/send.c:235-241 | if all frames fit and curl always asks for something, it is given nothing at most once, and exactly then the connection becomes CLOSED |
| `Handshake.HandshakeEnds` | src/send.c:224-257 | once both sides have closed, the connection becomes CLOSED after at most one offer by curl per octet left and one more, whatever is called and arrives in between |
| `Handshake.CloseQueuesExactly` | src/curlws.c:219-253 | a first cws_close queues a close frame if and only if its inputs are accepted, the code is not negative and there is memory |
| `Handshake.CloseAccepts` | src/curlws.c:315-372 | exactly which codes, written out from section 7.4 of RFC 6455, and which reasons are accepted |
| `Handshake.CloseRefuses` | src/curlws.c:315-372 | with which error any other is refused, changing nothing |
| `Handshake.ShutExactly` | src/receive.c:455-472 | the shutdown queues one close frame with the big-endian status and the reason, if there is memory, and marks both sides |
| `Handshake.ReasonOctets` | src/receive.c:109-120 | the reasons the receiver gives, in octets |
| `Handshake.NeverShut` | src/frame_senders.c:66-68 | after a close that queued no frame, no run ever sends one or completes the handshake |
| `Handshake.UrgentCloseNeverEnds` | src/frame_senders.c:48-50 | a negative code is refused and yet recorded as queued, so that the handshake can never end |
| `SenderGrammar.DataFrameExactly` | src/frame_senders.c:88-149 | one data frame fits the fragmentation grammar if and only if the sender's memory of the last frame was in step; without memory it falls out of step exactly when the part was first or last but not both |
| `SenderGrammar.RunsAreFragmented` | src/frame_senders.c:88-149 | over every run in which the first and the last frame of each message in several frames find memory, data frames form whole messages in order |
| `SenderGrammar.OrphanContinuation` | src/frame_senders.c:136-148 | for any data, a first part that finds no memory is followed by a continuation of nothing |
| `PeerTheory.ParseFrame` | src/frame.c:86-150 | the server reads a frame back as it was accepted |
| `PeerTheory.ParsePrefix` | src/send.c:164-211 | of any initial part of the octets the server reads the first frames and nothing else |
| `PeerTheory.ServerReadsFrames` | src/send.c:224-257 | at every point of every run the server has read the first of the accepted frames, unchanged, and all of them once the queue is empty |
| `MessageTheory.FrameCountIsLeast` | src/data_block_sender.c:55-75 | the number of frames of a block is the least that can carry it, and at least one |
| `MessageTheory.BlockTells` | src/data_block_sender.c:55-75 | the frames of a block, none longer than allowed, carry it as one message of its type |
| `MessageTheory.BlobRoundTrip` | src/data_block_sender.c:39-76 | sent on an idle connection, paused or not, parsed, unmasked and reassembled, any block comes back with its type and octets, for any maximum payload |
| `MessageTheory.FitsExactly` | src/send.c:87-102 | which frames fit their buffers; none of at most the maximum payload is ever encoded to nothing |
| `MessageTheory.StreamTextKeepsAllExactly` | src/curlws.c:295-309 | a part of a text stream that is accepted goes out as given if and only if it is whole characters; otherwise its end is dropped |
| `MessageTheory.StreamTextLosesAll` | src/curlws.c:400-412 | a middle part that is only the first octet of a longer character is accepted and nothing is queued |
| `MessageTheory.AcceptedIsDelivered` | src/curlws.c:199-309 | over every run, closes by either side included, what is accepted tells exactly the messages, pings and pongs of the calls that succeeded and the close with its status and reason; the server has read the first of those frames, and once curl has taken everything it has been told all of it |
| `Oversize.AcceptedButBlocking` | src/send.c:87-102 | after a stream part larger than the buffer is accepted, no run gives curl an octet beyond what was accepted before it, none at all if the queue was empty, and the handshake never ends |
| `Oversize.NothingPasses` | src/send.c:164-211 | the same from any state with a frame accepted that does not fit |
| `Sha1Spec.BigEndianBits` | src/sha1/sha1.c:342-352 | big-endian octets spell the binary digits of a number |
| `Sha1Spec.PaddingIsFips` | src/sha1/sha1.c:320-355 | the octets hashed spell the bit string that section 5.1.1 of FIPS 180-2 asks for, for messages of any number of bits |
| `Sha1Spec.OctetPaddingIsFips` | src/sha1/sha1.c:320-355 | the same for whole octets |
| `Sha1Spec.PaddingIsUnique` | src/sha1/sha1.c:320-355 | there is one such bit string, a multiple of 512 bits long |
| `Sha1Words.ChBit` | src/sha1/sha-private.h:25 | each bit is the second operand's where the first has a one and the third's where it has a zero |
| `Sha1Words.MajBit` | src/sha1/sha-private.h:26 | each bit is what at least two of the three have |
| `Sha1Words.ParityBit` | src/sha1/sha-private.h:38 | each bit is one for an odd number of ones |
| `Sha1Words.RotLBit` | src/sha1/sha1.c:55-56 | each bit comes from so many places to the right, around the end of the word |
| `Sha1Words.ConstantIsRoot` | src/sha1/sha1.c:379-382 | the constants are the square roots of 2, 3, 5 and 10 in units of 2^-30 |
| `Sha1Words.WordIsBigEndian` | src/sha1/sha1.c:390-396 | the words of the block are big-endian numbers |
| `Sha1Machine.FasterMacros` | src/sha1/sha-private.h:33-34 | the macros offered for speed give the same words |
| `Sha1Machine.SumIs` | src/sha1/sha1.c:408-409 | the sum of two 32-bit words is the sum of their numbers modulo 2^32 |
| `Sha1Machine.CompressionIsMachine` | src/sha1/sha1.c:376-453 | for every hash and every block, the compression on numbers is the one on 32-bit words with the operators of the C code |
| `Sha1Example.DigestOfAbc` | src/sha1/sha1.c:376-453 | the digest of "abc" is the one of appendix A.1 of FIPS 180-2, through all eighty steps |
| `Sha1.SplitsDoNotMatter` | src/sha1/sha1.c:132-163 | the message alone determines hash, buffered octets and length words, so pieces do not matter |
| `Sha1.LengthOctets` | src/sha1/sha1.c:342-352 | the eight octets written are the big-endian 64-bit length held in two words |
| `Sha1.Sha1Context.AddLength` | src/sha1/sha1.c:62-66 | the two words count with carry, and overflow exactly at 2^64 |
| `Sha1.Sha1Context.Expand` | src/sha1/sha1.c:390-398 | the word loops compute the message schedule |
| `Sha1.Sha1Context.Steps` | src/sha1/sha1.c:400-444 | the four loops compute the eighty steps of the standard (`Sha1Words`, `Sha1Example.DigestOfAbc`) |
| `Sha1.Sha1Context.ProcessMessageBlock` | src/sha1/sha1.c:376-453 | the hash words become the compression of the block |
| `Sha1.Sha1Context.TakeOctet` | src/sha1/sha1.c:150-160 | one octet keeps the invariant, or spoils the context when the length reaches 2^64 bits |
| `Sha1.Sha1Context.Input` | src/sha1/sha1.c:132-163 | the context holds the message with the new octets, or is spoiled exactly when it has 2^64 bits or has been finished |
| `Sha1.Sha1Context.PadMessage` | src/sha1/sha1.c:320-355 | the hash becomes the fold of the compression over the padded message, with one block or two |
| `Sha1.Sha1Context.FinalBits` | src/sha1/sha1.c:185-221 | the same with up to seven more bits |
| `Sha1.Sha1Context.Result` | src/sha1/sha1.c:243-261 | the digest of the padded message, however often it is asked for |
| `Sha1.CwsSha1` | src/sha1_internal.c:35-50 | the digest of the input, cut to its length modulo 2^32 |

## Left out

- libcurl, option setup, redirects while sending, the multi interface, opening handshake, headers, base64, logging and configuration: foreign calls and plumbing. `curl_easy_pause` is a count of its calls and the end of curl's waiting, without a call back into the engine.
- User callbacks are a log of events, and for each event any calls of the send and close functions (`Connection.React`). The receiver never looks at what those calls change, so they are put in after the chunk is judged. What else a callback might do, such as destroying the object, is not modelled.
- Pointers that are NULL, the length SIZE_MAX and the `strlen` calls it asks for: strings are sequences with their length, and a missing reason is an empty one.
- Random masking keys are inputs: an arbitrary function gives the keys that are drawn, one after the other. The key of the opening handshake, which `cws_random` gives as well, belongs to that part.
- Receiver and sender are two objects here and one struct in C. They are put together on values, in `Connection`. After the receiver has closed, its leftover fields, which nothing reads again, are one state `Closed`.
- Masks and shifts of the C code on octets and words are written with division and remainder, and the bitwise operators of SHA-1 on numbers.
- The back links of the send queue are not modelled: src/send.c never reads them. A queue element is a new object placed on a pool block, and giving the block back drops it; the memory itself is not reused by address.
- `offsetof` in `mem_free`: a block knows its pool.
- The one octet beyond 125 that src/receive.c:124 writes into the control buffer has its slot in the model's array.
- Message buffers that cannot grow because `realloc` fails (src/handlers.c:98-99).
- TextTheory.CutExactly: exact for the octets of one frame. ChunkTheory.CutTheorem is an implication for whole runs, because octets that come after a harmful cut can make both outcomes equal again, for instance by a fault with the same code.
- ServerStream.StreamDelivers: asks that the payload of each text frame is whole characters. RFC 6455 lets a character span two frames of a message; `SpanningText.DeliveredExactly` says exactly which such messages arrive.
- Reference.TellsReference: asks that no frame but the last of a message ends inside a character, because then the receiver drops octets that a parse of the stream would keep.
- Refusals.FrameRefused: text that breaks off inside a character in a frame that is not the last of its message is not refused yet, and is excluded.
- Refusals.StreamRefused: the same; streams that stop inside a frame are in `Reference.TellsReference`.
- Handlers.DefaultHandler.OnFragment: asks for fragments within the grammar, which is what the receiver reports (`ReceiveSafety.EveryRunIsSafe`).
- Connection.ZeroAtMostOnce: asks that frames fit their buffers and that curl asks for octets; `Connection.GivesNothingExactly` says what happens otherwise.
- SenderGrammar.RunsAreFragmented: asks that no first or last part of a stream lacks memory, and for a block in several frames that neither its first nor its last frame does; `SenderGrammar.DataFrameExactly` says what happens otherwise.
- MessageTheory.AcceptedIsDelivered: asks the same, and memory for every frame of a block in several frames: without it the call fails and the server is left with the beginning of the message.
- Client.Cws.DataBlockSender: which frames of a block in several frames find memory is left open where malloc fails; for single frames it is exact.
- TextCalls.TextArrives: asks for memory as `MessageTheory.AcceptedIsDelivered` does, and goes one way, because a close can cut short a message that has gone wrong.
