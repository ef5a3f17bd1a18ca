# Verification model of EncodeOverEthernet

This Dafny project models the path of one encoding request through EncodeOverEthernet: from the TCP
byte stream, through the server's admission checks, the scatter/gather DMA rings, the encoder core and
the pseudo-random ready gate, back to the reply, and on the other side from PGM files to bitstream
files. It proves that every reply is either exactly the encoder's packets or an honest failure, for every
admitted request, every earlier history of the board, every ready schedule and every way TCP cuts the
bytes, as long as no DMA reset hangs and no single packet reaches 2^32 bytes; and that where nothing fails
every request that the board can do is answered OK if its run ends in time, as every fair run does.

`dafny verify dfyconfig.toml` checks all of it.

## How it is built

- `Bytes`, `Proto`: fixed-width integers and the 20-byte header.
- `Socket`: a connection whose `read` and `write` cut and interrupt as a schedule says.
- `Xorshift`, `Gate`: the clocked entity, one step per edge over arbitrary inputs.
- `Encoder`: the core, which lives in another repository, as an unknown function from pixels to output
  beats. Assumed: nothing before the first pixel, output only grows, every beat carries data, and TLAST
  ends the packet of an image once all its pixels are in and never before (`CausalCores` shows that such
  cores exist).
- `Segment`, `Ring`, `Fabric`: what a ring does to a stream in the abstract, the descriptors in memory,
  and the fabric (both DMA channels after Xilinx PG021, core, gate, DRAM) as a state machine whose
  environment picks every event, stall and bus error. MM2S faults on a ring that is not one frame.
- `Sink`, `Run`, `Evidence`, `Health`, `Prepare`, `Safety`: invariants over every run, and what status
  words prove.
- `Driver`, `Launch`, `Serve`, `Session`, `Server`: the server's C code as methods, from power-on to a
  list of connections. The CPU has its own view of the three buffers; only the sync calls move bytes
  between it and DRAM, so each hand-over does real work. A schedule without end says what the fabric does
  between any two driver actions, how long that takes, and how registers and syncs answer.
  `ResetsWork` says of a schedule that no reset bit stays set for more than 100 ms.
- `Progress`: every fair schedule ends every run, in time for every wait that is long enough.
- `Admission`: the checks in 32-bit arithmetic and what they guarantee.
- `Reply`, `Pgm`, `Client`, `EndToEnd`: the client, the sweep's reader, and whole sessions.

## What turned out conditional

- Admission does not check that a slot stays below the 26-bit descriptor length. Up to images of
  53680538 bytes it does (`SlotIs`). Beyond, lengths are masked (`Tiling`); replies stay honest
  (`StreamAndReply` needs no such bound), but only packets up to the slot modulo 2^26 fit
  (`NothingWrongStream`, `LeadFits`). The overlay for the Pynq-Z2 allows images of about 102 MiB; streamed
  ones above 51 MiB meet this (`PynqAdmitsPastSpan`).
- `hw_recover` ignores whether its DMA reset completed. From every moment at which MM2S was still at work,
  a recovery whose reset hung leaves a state from which the next request can start with a pixel of the
  old one in its core (`StalePixel`); a request starts with an empty core under every schedule exactly if
  MM2S has nothing to feed when it begins (`StartsEmptyIff`). Answers are therefore exact or honest
  throughout on a board whose resets work, and else up to the first recovery that hung, whose own answer
  does not say OK (`ServeConnection`, `RunServer`); bounds on memory hold even after it (`StepsSafe`,
  `CountInSlot`, `TotalInBuffer`).
- Above bitness 8 the 32-bit image size is true only below 2^31 pixels (`ExpectIs`).
- `axidma_ring_bytes` adds up in 32 bits. The reply to a single image is the packet up to its length modulo
  2^32, with status OK; it is the whole packet exactly if that is shorter than 2^32 bytes (`CutIsExact`),
  as it always is with less than 4 GiB of rx buffer (`SmallBoardExact`). With 6 GiB a 65535 by 65535 image
  of 8 bits is admitted, and a packet of 2^32 bytes goes out as an OK reply of none (`TruncatedImage`).
- `stream_and_reply` casts the slot to 32 bits to get the chunk of its ring. A slot of 2^32 bytes or more
  belongs to a stream of one image (`WideSlot`), and no such stream is ever answered OK
  (`StreamAndReply`). A slot of exactly 2^32 bytes, which 52480 by 65472 pixels of 8 bits need, makes the
  chunk 0 (`ZeroChunk`), by which `axidma_ring_build` divides. C leaves that undefined; taken as the 0 that
  the AArch64 instruction gives, the ring is empty and the answer a hardware error.
- The reply to a stream fits its 32-bit length whatever the encoder does exactly if the number of images
  times a length and a full descriptor is below 2^32 (`FitsReply`, `FitsExactly`). Up to 4094 MiB of rx
  buffer that holds for every admitted stream (`ReplyFits`); with 4095 MiB a stream of 524033 images of
  four pixels is admitted that breaks it (`ReplyOverflow`).
- A loopback stream of very many very small images overflows the same field (`AnswerFramed`,
  `LoopbackIdentity`); so do 0xF0000000 images of one pixel (`LoopbackOverflow`).
- The client's request length wraps for more than 4 GiB of pixels, and then names fewer images
  (`RequestMeans`); whatever the server answers, the client does not take it for a result
  (`FewerImages`, `Client.RunStream`).
- The client allocates and reads as many bytes as a uint32_t count says, but swaps by the number of
  pixels. The swap stays inside the buffer, and the picture has its true size, for every header that is
  not both above maxval 255 and of 2^31 pixels or more; for those it leaves the buffer as soon as the
  file holds the wrapped count of bytes (`OverrunIs`). For `P5 65535 32769 65535` that count is 65534
  (`OverrunHeader`). Of files that get the client there nothing is promised (`Client.RunStream`).
- The client's numbers wrap at 2^64, so an absurd PGM size can load as a small picture (`PrintedLoads`).
- A comment stuck to a number can split client and sweep (`GluedCommentDiffers`). They agree exactly if the
  third number ends at white space, and each of the first two does or is followed by comments and then
  white space, the first of these comments being blank up to its end or to a second `#`
  (`HeadersAgree`).
- At zero percent the gate shuts for good (`FlowsForever`); the server turns a requested 0 into 100.
- `EncodeOverEthernet/Software/README.md:86` calls header byte 13 reserved; the code uses it for the
  ready percentage, and the model follows the code.

## Model

| member | source | states |
|---|---|---|
| `Client.FilesToFiles` | EncodeOverEthernet/Software/host/ojls_client.c:259-348 | For PGM files that fit together in one request to a board that admits it, and an answer that is exact or an honest failure, the client either learns of the failure or holds the encoder's packet of each picture, at that picture's own width, height and depth; after a failure every file it has is still the whole packet of its own picture; a reply too long for its length field never passes for either, and there is none if the request meets FitsReply |
| `Client.RunStream` | EncodeOverEthernet/Software/host/ojls_client.c:242-360 | The whole way: on a quiet board whose resets work, whatever the files and however both ends cut and interrupt, unless a picture overruns its buffer: the client rejects files that do not load alike, sees the server's status if the request is not admitted, and otherwise learns of a failure or holds the packet of each picture; where nothing fails and the request fits it holds them all, unless the run was not over in time; and of more pixels than the length field can tell it never takes an answer for a result |
| `Client.RunSingle` | EncodeOverEthernet/Software/host/ojls_client.c:408-482 | The same for a single image: the client refuses exactly what does not load or an override that does not suit, sees the status of a refusal or a failure, or saves the packet of its own picture, whole exactly if that is below 2^32 bytes; where nothing fails and the request fits it saves it, unless the run was not over in time |
| `Client.SingleRequestSays` | EncodeOverEthernet/Software/host/ojls_client.c:430-441 | The request is of type 1 with the dimensions, depth and byte count of the picture, override or not, and is one that the protocol allows, so only the limits of the board can refuse it |
| `Client.CompatibleIff` | EncodeOverEthernet/Software/host/ojls_client.c:411-419 | A bitness override is taken exactly if it holds the samples in as many bytes each |
| `EndToEnd.StreamEndToEnd` | EncodeOverEthernet/Software/src/ojls_server.c:395-467 | From an admitted stream frame whose answer is exact or an honest failure: the client's verdict is a rejection or failure with a hardware status, or the packets of all images; never malformed, never a truncated or foreign packet; only a reply of 2^32 bytes or more, which no request within FitsReply gets, is refused instead |
| `EndToEnd.SingleEndToEnd` | EncodeOverEthernet/Software/host/ojls_client.c:454-476 | From an admitted single frame and a trusted answer the client saves the packet of exactly these pixels, up to its length modulo 2^32, or learns of a hardware failure |
| `EndToEnd.SingleLoopback` | EncodeOverEthernet/Software/src/ojls_server.c:490-496 | From loopback the client of a single image saves exactly what it sent |
| `EndToEnd.HeadersEcho` | EncodeOverEthernet/Software/src/ojls_server.c:328-376 | Field by field: a response is of type 2 for a single image and for an error, of type 4 for a stream, with the width, height and bitness of its request and its own status and length |
| `EndToEnd.LoopEchoes` | EncodeOverEthernet/Software/src/ojls_server.c:490-496 | A single loopback response is the request with type 2 and status 0, followed by the payload |
| `EndToEnd.KthVerdict` | EncodeOverEthernet/Software/host/ojls_client.c:294-348 | Response by response through the output of a session, the client comes to the k-th and that tells the truth about the k-th request: the status of its rejection, or an honest verdict on its images |
| `Server.RunServer` | EncodeOverEthernet/Software/src/ojls_server.c:642-730 | Whatever earlier programs, requests and connections did: once opened, a board whose resets work answers every frame of every connection exactly or with an honest failure; otherwise all connections up to one do, and that one up to an answer that does not say OK, and then a DMA reset hung; where nothing fails every admitted frame that the board can do is answered OK, unless its run was not over in time |
| `Server.PowerOn` | EncodeOverEthernet/Software/src/ojls_server.c:642-730 | From any state of fabric and memory at power-on, with no assumption but working resets, the server comes up and all its answers over all connections are exact or honest |
| `Session.ServeConnection` | EncodeOverEthernet/Software/src/ojls_server.c:504-617 | Over a socket that only cuts and interrupts, the server takes exactly the frames of the byte stream, answers each with one response in order and ends as the stream says; a loopback session sends a function of the bytes received, however they are cut; on a quiet board whose resets work every answer is exact or honest, and otherwise all before the first recovery that hung, whose answer does not say OK; where nothing fails every admitted frame that the board can do is answered OK, unless its run was not over in time |
| `Session.AnswerFrame` | EncodeOverEthernet/Software/src/ojls_server.c:533-612 | One frame consumes exactly its payload whether rejected, echoed or encoded, and its answer is the one response that its header and the board allow, to be trusted unless its own recovery hung, and then not OK; on a truncated payload nothing is sent |
| `Session.Encode` | EncodeOverEthernet/Software/src/ojls_server.c:598-612 | Pixels go to the tx buffer and the reply is a hardware status or what the encoder makes of exactly those pixels; if the recovery hung the reply does not say OK; where nothing fails and the request fits it does, unless the run was not over in time |
| `Session.SmallBoardExact` | EncodeOverEthernet/Software/src/ojls_server.c:323-337 | With less than 4 GiB of rx buffer every trusted single reply is the whole packet |
| `Session.Echo` | EncodeOverEthernet/Software/src/ojls_server.c:580-596 | A loopback request consumes its payload and sends back the same bytes |
| `Session.Refuse` | EncodeOverEthernet/Software/src/ojls_server.c:572-578 | A rejected request is skipped by exactly its payload and answered with an empty error response |
| `Session.SendError` | EncodeOverEthernet/Software/src/ojls_server.c:142-155 | The error response echoes the request header with magic, version, type, status and length replaced |
| `Session.Finish` | EncodeOverEthernet/Software/src/ojls_server.c:518-532 | When no whole frame is left the frames taken are all there are, and the way the bytes end fixes the outcome |
| `EndToEnd.RequestsStayInStep` | EncodeOverEthernet/Software/src/ojls_server.c:510-528 | Requests sent back to back, whatever their reserved bytes, are taken apart exactly where they were joined, whatever follows |
| `EndToEnd.FramesWhole` | EncodeOverEthernet/Software/src/ojls_server.c:518-532 | Every frame taken has the right magic and all of its payload |
| `EndToEnd.TakesApart` | EncodeOverEthernet/Software/src/ojls_server.c:518-532 | Any bytes at all are requests back to back, as far as they go, and then nothing, a header with another magic, or a request cut short |
| `EndToEnd.EndSays` | EncodeOverEthernet/Software/src/ojls_server.c:518-532 | A connection ends in order only behind a whole request; another magic gets one refusal with status 1, and a cut request nothing |
| `EndToEnd.AnswerFramed` | EncodeOverEthernet/Software/src/ojls_server.c:142-155 | Every answer is a response of true length exactly if that is below 2^32; it is not for exactly the loopback streams whose table of lengths pushes them there, and always is on a board if the request meets FitsReply |
| `EndToEnd.FitsExactly` | EncodeOverEthernet/Software/src/ojls_server.c:361-389 | For an admitted stream no answer reaches 2^32 bytes exactly if the count times a length and a full descriptor stays below; beyond that, for images of true size, even an exact OK answer can, with an encoder that fills its descriptors |
| `EndToEnd.LoopbackOverflow` | EncodeOverEthernet/Software/src/ojls_server.c:469-488 | A concrete admitted loopback request whose reply overflows its length field |
| `EndToEnd.SessionInStep` | EncodeOverEthernet/Software/src/ojls_server.c:504-617 | A client that trusts the length fields separates the output of a session into its responses, one for each frame, in order, exactly if none of them reaches 2^32 bytes |
| `EndToEnd.OkAnswersAgree` | EncodeOverEthernet/Software/src/ojls_server.c:274-349 | Two OK answers of a board to the same frame, each trusted as ServeConnection says, are equal byte for byte, whatever the history, throttle and timing |
| `EndToEnd.LoopbackIdentity` | EncodeOverEthernet/Software/src/ojls_server.c:469-488 | The client gets back from loopback exactly the images it sent, exactly when 4 * count + payload is below 2^32 |
| `EndToEnd.ErrorVerdict` | EncodeOverEthernet/Software/host/ojls_client.c:304-307 | Every error response is seen by the client as a rejection with that status |
| `EndToEnd.OkVerdict` | EncodeOverEthernet/Software/host/ojls_client.c:304-347 | An OK response is a complete result to the client or malformed, never a failure |
| `Session.CutIs` | EncodeOverEthernet/Software/src/ojls_server.c:475-484 | Cutting a payload at the image size and joining the pieces gives the payload back, in the expected number of pieces |
| `Session.LoopbackReply` | EncodeOverEthernet/Software/src/ojls_server.c:469-501 | A stream is echoed as one reply with every image at its place, a single image as header and payload |
| `Socket.Conn.RecvFull` | EncodeOverEthernet/Software/src/ojls_server.c:86-106 | However read cuts and interrupts the stream, the buffer gets exactly the next bytes; 1 exactly at EOF before the first byte of a nonempty read, -1 at any later EOF |
| `Socket.Conn.SendFull` | EncodeOverEthernet/Software/src/ojls_server.c:108-124 | However write cuts and interrupts, the peer gets exactly the bytes, and never more than a prefix on failure |
| `Socket.Conn.Drain` | EncodeOverEthernet/Software/src/ojls_server.c:126-140 | Consumes exactly the payload through a 4096-byte scratch buffer, or fails exactly when it is cut short |
| `Serve.EncodeAndReply` | EncodeOverEthernet/Software/src/ojls_server.c:274-349 | From a quiet board an OK reply is header and packet of the whole image, up to its length modulo 2^32, and the packet fits the rx buffer; anything else sends nothing; MM2S is quiet again unless the recovery hung, and never so after OK; a timeout means that the time has passed; and a board that does not fail, with a request that fits, reports no hardware error, and a timeout only if a run on exactly these pixels, begun by the seventh action, is not seen to end in time; after a timeout and a reset that worked nothing of the image is left in the core |
| `Serve.CutIsExact` | EncodeOverEthernet/Software/src/axidma.c:263-275 | The reply to a single image is the whole packet, with its true length, exactly if that is below 2^32 |
| `Serve.TruncatedImage` | EncodeOverEthernet/Software/src/ojls_server.c:323-341 | A concrete image that a board with 6 GiB of rx buffer admits, and for which a packet of 2^32 bytes, which some encoder makes, goes out as an OK reply without a bitstream |
| `Serve.StreamAndReply` | EncodeOverEthernet/Software/src/ojls_server.c:395-467 | From a quiet board the reply lists whole packets of the first images in order and zero lengths after them, each within the masked length of its slot, and is OK only when all are there, unless the recovery hung, and then it is not OK; never OK for a slot of 2^32 bytes or more, and a hardware error for a chunk of 0; timeouts and hardware errors need their cause as above; on a clean run it lists every image up to the first descriptor in DRAM without a TLAST, with the count of that descriptor; where nothing fails it sends such a list, whatever became of the packets, exactly if the rings can be built |
| `Serve.AwaitSingle` | EncodeOverEthernet/Software/src/ojls_server.c:311-326 | Wait, recovery, byte count and hand-over: on success the CPU holds the packet up to its length modulo 2^32, and MM2S has nothing left to move; otherwise it is quiet unless the recovery hung; a timeout means that no look in time could have shown a TLAST |
| `Serve.RunStream` | EncodeOverEthernet/Software/src/ojls_server.c:398-454 | Reset, configuration, rings, start and wait of a stream, then the lengths to send: an honest list whenever the wait succeeded or the recovery did not hang, and every slice inside the rx buffer and the masked length of its slot even then; where nothing fails and the request fits the only other status is a timeout, of a run that is not seen to end in time |
| `Serve.NoneLeftOver` | EncodeOverEthernet/Software/src/ojls_server.c:415-434 | A wait that finds every descriptor closed on a TLAST implies that the slot was not cut by its cast |
| `Serve.SlottedRoom` | EncodeOverEthernet/Software/src/ojls_server.c:415-416 | Cast or not, image k is received at its slot, in a descriptor of the slot modulo 2^26 |
| `Serve.LookStream` | EncodeOverEthernet/Software/src/ojls_server.c:441-454 | The look at the descriptors and bytes after the wait, from a snapshot that later looks only confirm |
| `Serve.CollectLens` | EncodeOverEthernet/Software/src/ojls_server.c:447-454 | The loop that fills lens goes over as many descriptors as images, stops at the first without a TLAST and leaves zeros behind it |
| `Serve.ListStays` | EncodeOverEthernet/Software/src/ojls_server.c:441-454 | Nothing that the list of lengths depends on changes in DRAM after the look |
| `Serve.PacketsVerdict` | EncodeOverEthernet/Software/src/axidma.c:237-251 | For every state of a run, the snapshot that axidma_wait_packets accepts is exactly one in which every descriptor reports a TLAST |
| `Serve.LaterStanding` | EncodeOverEthernet/Software/src/ojls_server.c:434-445 | A later look at the same run, or at a run that a reset stopped, shows every descriptor closed by now with the same status |
| `Serve.NothingWrongSingle` | EncodeOverEthernet/Software/src/axidma.c:171-205 | In a run without a bus error on the receive side whose packet fits the ring, no snapshot gives axidma_wait a reason to fail |
| `Serve.NothingWrongStream` | EncodeOverEthernet/Software/src/axidma.c:229-248 | In a run without a bus error on the receive side whose packets fit the 26-bit length of their slots, masked or not, no snapshot gives axidma_wait_packets a reason to fail |
| `Progress.StreamFinishes` | EncodeOverEthernet/Software/src/ojls_server.c:428-434 | Every schedule without a bus error in which MM2S moves, the core shows its output and S2MM is ready again and again, and a beat stays up until taken, brings a stream run, at any ready percentage from 1 to 100, to a moment from which on axidma_wait_packets accepts every look |
| `Progress.SingleFinishes` | EncodeOverEthernet/Software/src/ojls_server.c:307-311 | The same for one image and axidma_wait |
| `Progress.FairInTime` | EncodeOverEthernet/Software/src/axidma.c:162-261 | Over any script that plays a fair schedule, the run of a request that fits is seen to end by every wait from some length on, so it is not overdue there |
| `Progress.TurnsInTime` | EncodeOverEthernet/Software/src/axidma.c:162-261 | For every such run there is a script without any failure on which all waits that are long enough see its end |
| `Progress.TurnsAreFair` | EncodeOverEthernet/Hardware/pynq-z2/rtl/axis_ready_gate.vhd:101-125 | Such schedules exist for every run: taking turns is one |
| `Progress.OpensAgain` | EncodeOverEthernet/Hardware/pynq-z2/rtl/axis_ready_gate.vhd:110-115 | From every generator state a THRESH write can lead to, every fair schedule has another edge with the gate open |
| `Launch.Start` | EncodeOverEthernet/Software/src/ojls_server.c:409-432 | Configure, gate, pixels to DRAM, DMA reset, rings, hand-over, S2MM, MM2S, as one function of the state found and the schedule: from a quiet MM2S success begins a run that reads the pixels just received and the rings just built, with nothing of any earlier request in it; when nothing fails it succeeds exactly if dimensions, percentage and rings are acceptable; the transmit ring in DRAM is one frame, without which MM2S would fault |
| `Serve.Begin` | EncodeOverEthernet/Software/src/ojls_server.c:409-432 | A started request runs the gate at the percentage in its header, at 100 if that is 0 and for a single image |
| `Launch.SafeFraming` | EncodeOverEthernet/Software/src/axidma.c:121-126 | Whatever the engine does, the marks of both rings stay as built |
| `Launch.Clear` | EncodeOverEthernet/Software/src/ojls_server.c:285-294 | The first four actions leave core, gate and engine empty over the new pixels, from any state in which MM2S is not running |
| `Launch.Load` | EncodeOverEthernet/Software/src/ojls_server.c:285-305 | With the rings built and handed over both descriptors and pixels in DRAM are those of this request, with status cleared, over an empty core and gate; the transmit ring in DRAM is one frame |
| `Launch.BuildRings` | EncodeOverEthernet/Software/src/ojls_server.c:296-300 | Both rings are built, in disjoint halves, exactly when lengths, alignment and space allow; with a chunk of 0 the receive ring is empty; the transmit ring maps the pixels in pieces of 32 MiB and is one frame, with SOF on its first descriptor and EOF on its last, and the receive ring has neither; both are aligned to 64 bytes |
| `Launch.StartsEmptyIff` | EncodeOverEthernet/Software/src/ojls_server.c:285-308 | A request starts S2MM over an empty core under every schedule exactly if MM2S could feed the core nothing when the request began |
| `Launch.StalePixel` | EncodeOverEthernet/Software/src/ojls_server.c:265-270 | The failing case is reachable: from every moment of a run with MM2S at work, a recovery whose reset hung leaves a state from which the next request can start with the next pixel of the old request in its core |
| `Prepare.RunningFeeds` | EncodeOverEthernet/Software/src/axidma.c:136-158 | Throughout a run MM2S can feed the core exactly as long as it runs |
| `Prepare.SinkStarts` | EncodeOverEthernet/Software/src/ojls_server.c:307-308 | Starting S2MM on the prepared fabric begins a run with nothing delivered and nothing in flight |
| `Prepare.SourceStarts` | EncodeOverEthernet/Software/src/ojls_server.c:307-308 | Starting MM2S then keeps the run |
| `Prepare.WriteEmpties` | EncodeOverEthernet/Software/src/ojls_server.c:253-261 | The THRESH write drops the held beat that the core reset cannot reach and reads back what was written |
| `Prepare.WriteSeeds` | EncodeOverEthernet/Hardware/pynq-z2/rtl/axis_ready_gate.vhd:130-135 | The THRESH write restarts the generator, so a run can be reproduced |
| `Driver.Driver.Configure` | EncodeOverEthernet/Software/src/ojls_server.c:231-251 | Success means an empty core of the requested size, from a quiet MM2S; when nothing fails it succeeds exactly for sizes in range; a failure means sizes out of range or BUSY set at every look for more than 100 ms |
| `Driver.Driver.GateSet` | EncodeOverEthernet/Software/src/ojls_server.c:255-261 | Fails exactly from 200 percent on, where the threshold leaves 17 bits; empties the gate over an empty core; and from then on the gate opens exactly for the draws r of which (r + 1) * 100 <= pct * 65536 |
| `Driver.Driver.Reset` | EncodeOverEthernet/Software/src/axidma.c:59-77 | Both channels are reset, or the bit was still set at every look for more than 100 ms with the engine running on |
| `Driver.Driver.Open` | EncodeOverEthernet/Software/src/axidma.c:34-51 | Opening the driver succeeds only with a reset engine, so MM2S is quiet whatever went on before |
| `Driver.Driver.constructor` | EncodeOverEthernet/Software/src/ojls_server.c:157-219 | Mapped buffers of the sizes the board has, over any contents of DRAM and any state of the fabric |
| `Driver.Driver.Wait` | EncodeOverEthernet/Software/src/axidma.c:160-219 | Success on S2MM is one snapshot with a TLAST and no error up to it, on MM2S one with the last descriptor done, and in the same turn the status register showed no error; a timeout means time is up and neither was so, and no look in time could have shown a TLAST; a failure on a calm board has its cause in the snapshot |
| `Driver.Driver.WaitPackets` | EncodeOverEthernet/Software/src/axidma.c:221-261 | Success is one snapshot with every descriptor closed on a TLAST; timeout and failure as for Wait; a timeout means that no look in time could have shown every TLAST |
| `Driver.Driver.ScanSingle` | EncodeOverEthernet/Software/src/axidma.c:183-194 | The scan stops at the first error or TLAST and reports which came first |
| `Driver.Driver.RingBytes` | EncodeOverEthernet/Software/src/axidma.c:263-275 | The uint32_t sum of the counts up to and including the first TLAST |
| `Driver.Driver.Recover` | EncodeOverEthernet/Software/src/ojls_server.c:265-270 | What hw_recover leaves, as a function of the state found; it leaves MM2S quiet and the evidence of the run as it was unless its reset hung; after a reset that worked the core is empty |
| `Driver.Driver.SyncTxForDevice` | EncodeOverEthernet/Software/src/udmabuf.h:36-41 | The only way pixels reach DRAM: it takes exactly the CPU's first bytes, and the rest stays |
| `Driver.Driver.SyncDescsForCpu` | EncodeOverEthernet/Software/src/udmabuf.h:36-41 | The CPU gets a snapshot of the descriptors in DRAM at one moment of the run |
| `Driver.Driver.SyncRxForCpu` | EncodeOverEthernet/Software/src/udmabuf.h:36-41 | The CPU gets the received bytes in DRAM at one moment of the run |
| `Evidence.StreamTold` | EncodeOverEthernet/Software/src/ojls_server.c:447-454 | At every moment of every run, however it ends, the leading descriptors that report a TLAST hold exactly the first packets, whole, in order, with exact lengths; a packet that outgrew its slot stops the prefix even if later descriptors report a TLAST |
| `Evidence.LeadFits` | EncodeOverEthernet/Software/src/axidma.c:113-114 | A packet that closed its descriptor fits the 26-bit length of that: the other half of what NothingWrongStream promises for packets that fit |
| `Evidence.SingleTold` | EncodeOverEthernet/Software/src/axidma.c:263-275 | At the first TLAST the counts add up to the packet and the rx buffer starts with exactly it, across descriptor boundaries |
| `Evidence.ThrottleIndependent` | EncodeOverEthernet/Hardware/pynq-z2/rtl/axis_ready_gate.vhd:101-125 | Two runs of the same job, with any thresholds, ready schedules and interleavings, that delivered everything without an error end with the same status words and the same bytes under them |
| `Evidence.DoneIsQuiet` | EncodeOverEthernet/Software/src/ojls_server.c:434-436 | Once as many packets closed as there are images, MM2S has nothing left to move |
| `Evidence.EofPersists` | EncodeOverEthernet/Software/src/axidma.c:237-251 | A TLAST once reported is reported with the same count by every later look |
| `Evidence.EofMeans` | EncodeOverEthernet/Software/src/axidma.h:51-75 | A status word reports a TLAST exactly if its segment of the stream ended in one, with the count and the bytes of the segment |
| `Run.StepsKeep` | EncodeOverEthernet/Software/src/axidma.c:136-158 | Every run of MM2S, core, gate and S2MM keeps the tie between pixels, beats, descriptors and memory, and delivered beats stay delivered |
| `Run.FeedIs` | EncodeOverEthernet/Software/src/axidma.h:51-75 | A running MM2S stands at exactly the next pixel byte, across descriptors |
| `Sink.StoreTracks` | EncodeOverEthernet/Software/src/axidma.h:51-75 | Storing a byte through descriptor pointers in DRAM does to memory exactly what cutting the stream at TLASTs and full descriptors says |
| `Sink.StoreAllHealthy` | EncodeOverEthernet/Software/src/axidma.h:51-75 | Only a bus error stops S2MM before its ring is closed, if every descriptor has room |
| `Segment.LeadIsExact` | EncodeOverEthernet/Software/src/ojls_server.c:391-394 | The leading segments closed by a TLAST are the leading packets, whole and in order; a segment that filled up first ends the lead |
| `Segment.FirstEof` | EncodeOverEthernet/Software/src/ojls_server.c:291-292 | The first segment closed by a TLAST, with the full ones before it, is the whole first packet |
| `Health.Outgrown` | EncodeOverEthernet/Software/src/axidma.c:244-247 | The first descriptor that closed without a TLAST was outgrown by its packet, as the driver reports |
| `Health.OutgrownRing` | EncodeOverEthernet/Software/src/axidma.c:200-205 | A ring that closed without any TLAST was outgrown by its packet, as the driver reports |
| `Health.StepsSane` | EncodeOverEthernet/Software/src/axidma.c:171-178 | Without a bus error on the receive side the engine never faults during a run |
| `Safety.StepsSafe` | EncodeOverEthernet/Software/src/ojls_server.c:265-270 | Even after a failed recovery, with any pixels in the core, a started receive ring keeps its bounds in every run |
| `Safety.ResetsSafe` | EncodeOverEthernet/Software/src/axidma.c:59-77 | A DMA or core reset at any moment, late ones included, keeps those bounds |
| `Safety.CountInSlot` | EncodeOverEthernet/Software/src/ojls_server.c:447-454 | A count reported with a TLAST never reaches past its slot or the rx buffer, in any case |
| `Safety.TotalInBuffer` | EncodeOverEthernet/Software/src/ojls_server.c:323-326 | The byte count of a single image never exceeds the rx buffer, in any case |
| `Fabric.SgStartIs` | EncodeOverEthernet/Software/src/axidma.c:136-158 | The six register writes set a halted channel running at CURDESC towards TAILDESC with whole 64-bit addresses |
| `Ring.RingBuild` | EncodeOverEthernet/Software/src/axidma.c:79-134 | Builds exactly when length, alignment and capacity allow; a refusal touches nothing, a success nothing outside the ring; a chunk of 0 yields a ring without descriptors |
| `Ring.DescReads` | EncodeOverEthernet/Software/src/axidma.h:51-66 | The engine decodes from each descriptor the 64-bit next pointer and address and the 26-bit length that the driver meant |
| `Ring.Tiling` | EncodeOverEthernet/Software/src/axidma.c:104-131 | The descriptors tile the buffer in order and their lengths add up to it exactly when no piece reaches 2^26 bytes |
| `Ring.FrameMarks` | EncodeOverEthernet/Software/src/axidma.c:121-126 | SOF is on the first descriptor of a framed ring and EOF on the last, nowhere else |
| `Ring.RingFraming` | EncodeOverEthernet/Software/src/axidma.c:121-126 | In terms of control words: bit 27 on the first descriptor and bit 26 on the last of a framed ring, neither anywhere else |
| `Ring.StatusBits` | EncodeOverEthernet/Software/src/axidma.h:68-73 | The status word bit by bit as the header has it |
| `Ring.WalkFrom` | EncodeOverEthernet/Software/src/axidma.c:109-118 | Following next pointers from CURDESC visits every descriptor once, in order, and ends at TAILDESC |
| `Ring.ChunkBounds` | EncodeOverEthernet/Software/src/axidma.c:92-96 | The number of descriptors is the least that covers the buffer |
| `Admission.ExpectIs` | EncodeOverEthernet/Software/src/ojls_server.c:545-552 | The 32-bit product is zero exactly if a dimension is, so nothing divides by zero, and true exactly if it fits, which at bitness 8 is always and above needs width * height below 2^31 |
| `Admission.AdmitsExactly` | EncodeOverEthernet/Software/src/ojls_server.c:533-570 | A request is admitted exactly if it has version 1, type 1 or 3, a bitness from 8 to 16, one image or a positive whole number of them in its payload, at most 100 percent, and, for a board, its bitness, dimensions in its range, and payload, slots and descriptors that fit |
| `Admission.RefusalNames` | EncodeOverEthernet/Software/src/ojls_server.c:533-570 | Each status of a refusal names a field that is at fault |
| `Admission.AdmittedStream` | EncodeOverEthernet/Software/src/ojls_server.c:548-569 | An admitted stream is a whole nonzero number of images of the claimed size, in slots that fit the rx buffer and descriptors that fit their half |
| `Admission.AdmittedSingle` | EncodeOverEthernet/Software/src/ojls_server.c:548-560 | An admitted single image has exactly the claimed nonzero size and headroom in the rx buffer |
| `Admission.RingsFit` | EncodeOverEthernet/Software/src/ojls_server.c:561-569 | Every admitted request gets its transmit ring into its half; a stream gets one descriptor an image exactly if its slot is below 2^32, and none exactly if it is 2^32 |
| `Admission.WideSlot` | EncodeOverEthernet/Software/src/ojls_server.c:416-416 | A slot of 2^32 bytes or more belongs to a stream of one image, and the cast takes exactly 2^32 off it |
| `Serve.AdmittedWired` | EncodeOverEthernet/Software/src/ojls_server.c:561-569 | With an aligned descriptor buffer whose half describes the rx buffer in 32 MiB pieces, admission is all the ring builder asks for; only where the slot exceeds 2^32 bytes the pieces of the cut chunk must fit too, and then exactly so |
| `Serve.ZeroChunk` | EncodeOverEthernet/Software/src/ojls_server.c:415-416 | A concrete stream that a board with 4 GiB of rx buffer admits, with a slot of 2^32 bytes and so a chunk of 0 |
| `Admission.SlotIs` | EncodeOverEthernet/Software/src/ojls_server.c:351-358 | A slot is a page multiple with a quarter and a page of headroom, and below 2^26 exactly up to images of 53680538 bytes |
| `Admission.SlotsDisjoint` | EncodeOverEthernet/Software/src/ojls_server.c:353-370 | Slots of an admitted stream are disjoint, page aligned and inside the rx buffer |
| `Admission.StreamCheckSubsumes` | EncodeOverEthernet/Software/src/ojls_server.c:561-569 | Slots for all images leave at least the room the whole-payload check asks for |
| `Admission.PynqAdmitsPastSpan` | EncodeOverEthernet/Hardware/pynq-z2/openjls.dtso:68-89 | With the buffer sizes of this overlay an 8000 by 8000 image is admitted as a stream although its slot does not fit a descriptor |
| `Serve.PynqWired` | EncodeOverEthernet/Hardware/pynq-z2/openjls.dtso:33-49 | With the buffer sizes and addresses of this overlay both rings can be built for every admitted request |
| `Admission.ReplyFits` | EncodeOverEthernet/Software/src/ojls_server.c:361-370 | With an rx buffer of at most 4094 MiB every admitted stream has a reply that fits its 32-bit length |
| `Admission.ReplyOverflow` | EncodeOverEthernet/Software/src/ojls_server.c:361-370 | A concrete stream that a board with 4095 MiB of rx buffer admits and that is beyond the exact bound |
| `Reply.ReplyRoundTrip` | EncodeOverEthernet/Software/host/ojls_client.c:319-347 | The client recovers from what stream_send prints each nonempty image under its index, byte for byte, and the failure status, exactly when the reply is shorter than 2^32 |
| `Reply.TakesExactly` | EncodeOverEthernet/Software/host/ojls_client.c:299-347 | On arbitrary bytes the client takes a response for a result exactly if it is one that a server prints for as many images, and then writes the nonempty ones |
| `Reply.RejectsExactly` | EncodeOverEthernet/Software/host/ojls_client.c:299-307 | It reports a rejection exactly for a header with a status and no payload |
| `Reply.FewerImages` | EncodeOverEthernet/Software/host/ojls_client.c:319-326 | A client with more images than the reply lists never takes it for a result, because the table it reads already adds up to more |
| `Reply.StreamSend` | EncodeOverEthernet/Software/src/ojls_server.c:361-389 | Header, lengths and images go out in that order, each image from its own slot |
| `Reply.TotalLength` | EncodeOverEthernet/Software/src/ojls_server.c:367-370 | The uint32_t total of the table and all images |
| `Reply.ParseStream` | EncodeOverEthernet/Software/host/ojls_client.c:319-338 | On an arbitrary payload the length check passes exactly if the table adds up, and then every slice taken is in bounds |
| `Reply.FilesTile` | EncodeOverEthernet/Software/host/ojls_client.c:329-338 | The files taken from any payload that passes the check are together all of it behind the table |
| `Reply.FilesIndexed` | EncodeOverEthernet/Software/host/ojls_client.c:329-338 | There is one file for each nonzero length, in order, under its index and of that length |
| `Reply.ReadResponse` | EncodeOverEthernet/Software/host/ojls_client.c:294-348 | The client reads one response, however its bytes arrive, to the verdict that the whole response determines |
| `Reply.ReadSingle` | EncodeOverEthernet/Software/host/ojls_client.c:444-475 | The client of a single image reads one response, however its bytes arrive, to the verdict that the whole response determines |
| `Reply.SavesExactly` | EncodeOverEthernet/Software/host/ojls_client.c:454-475 | It saves exactly the payload of a response of type 2 with status 0 and a true length |
| `Reply.RefusedExactly` | EncodeOverEthernet/Software/host/ojls_client.c:454-461 | It is refused exactly by a response of type 2 with another status |
| `Client.Collect` | EncodeOverEthernet/Software/host/ojls_client.c:259-279 | Files are collected into one request exactly if all load and any two of the pictures have the same width, height, bitness and size, and the pixels are those of the files in order; unless loading one overruns its buffer, which is told exactly |
| `Client.AllAlikeIff` | EncodeOverEthernet/Software/host/ojls_client.c:259-279 | Comparing each picture with the first finds exactly the files of which all are of one shape |
| `Client.RequestSays` | EncodeOverEthernet/Software/host/ojls_client.c:281-285 | The request is of type 3, with the width, height and bitness of every picture, the percentage asked for, and the byte count modulo 2^32 |
| `Client.RequestMeans` | EncodeOverEthernet/Software/host/ojls_client.c:281-285 | The server counts and cuts out the client's images exactly when their bytes fit 32 bits; beyond that the request names fewer images |
| `Pgm.PgmToken` | EncodeOverEthernet/Software/host/ojls_client.c:72-96 | Finds the next numeral behind white space and comments, with its value modulo 2^64, and consumes the byte after it |
| `Pgm.PgmGeom` | EncodeOverEthernet/Verification/run_hil_sweep.py:94-114 | The token loop of the sweep, in which a comment does not end a token |
| `Pgm.HeadersAgree` | EncodeOverEthernet/Verification/run_hil_sweep.py:94-114 | Client and sweep see the same three numerals and stop at the same byte exactly if the third ends at white space, and each of the first two does or is followed by comments and white space, the first comment blank up to its end or another # |
| `Pgm.PrintedHeader` | EncodeOverEthernet/Software/host/ojls_client.c:121-127 | Every printed header is read by both as printed, up to the pixels, and by the client with the printed values exactly if these fit 64 bits |
| `Pgm.PrintedLoads` | EncodeOverEthernet/Software/host/ojls_client.c:106-166 | Every printed file loads as the picture its header names modulo 2^64, is refused for its size or a short raster, or overruns |
| `Pgm.LoadsAsPrinted` | EncodeOverEthernet/Software/host/ojls_client.c:106-166 | A printed file with 64-bit numbers loads exactly if the three are from 1 to 65535, it does not overrun and its raster is complete; then with its width, height, least bitness from 8 on, and samples in order, little-endian |
| `Pgm.TokenExactly` | EncodeOverEthernet/Software/host/ojls_client.c:72-96 | The next number is exactly the first longest run of digits behind nothing but white space and whole comment lines |
| `Pgm.GluedCommentDiffers` | EncodeOverEthernet/Software/host/ojls_client.c:84-95 | A comment stuck to a number makes the client read on inside it and the sweep after it |
| `Pgm.PgmLoad` | EncodeOverEthernet/Software/host/ojls_client.c:106-166 | Header, bitness, wrapped byte count, pixels and byte order of a whole file, up to the point where the swap leaves the buffer |
| `Pgm.LoadedFits` | EncodeOverEthernet/Software/host/ojls_client.c:133-140 | What is loaded has the size that the server's check expects and the depth that the sweep expects |
| `Pgm.Wraps` | EncodeOverEthernet/Software/host/ojls_client.c:139-140 | The byte count leaves 32 bits exactly for deep pictures of 2^31 pixels or more, and is then less than the swap covers |
| `Pgm.OverrunIs` | EncodeOverEthernet/Software/host/ojls_client.c:139-163 | The swap leaves the buffer exactly for those pictures, once the file holds the wrapped count of bytes; every other picture loads exactly if its raster is complete, with its true size |
| `Pgm.OverrunHeader` | EncodeOverEthernet/Software/host/ojls_client.c:139-163 | A concrete header for which every file of 64 KB overruns |
| `Pgm.Bitness` | EncodeOverEthernet/Software/host/ojls_client.c:135-137 | The loop ends at max(8, bit length of maxval) |
| `Pgm.SameBytesPerPixel` | EncodeOverEthernet/Verification/run_hil_sweep.py:117-120 | maxval above 255 exactly if bitness above 8, so client, sweep and server use the same bytes per pixel |
| `Pgm.SwapInPlace` | EncodeOverEthernet/Software/host/ojls_client.c:155-163 | Swaps the bytes of every sample in place, and stays inside the buffer exactly if that holds all samples |
| `Pgm.SwapReverses` | EncodeOverEthernet/Software/host/ojls_client.c:155-163 | The swap turns big-endian samples into little-endian ones of the same value and undoes itself |
| `Bytes.RoundTripU16` | EncodeOverEthernet/Software/common/ojls_proto.h:63-80 | The 16-bit codec is a bijection |
| `Bytes.RoundTripU32` | EncodeOverEthernet/Software/common/ojls_proto.h:69-85 | The 32-bit codec is a bijection |
| `Proto.UnpackPack` | EncodeOverEthernet/Software/common/ojls_proto.h:87-113 | Every header survives packing and unpacking |
| `Proto.Layout` | EncodeOverEthernet/Software/common/ojls_proto.h:87-113 | Every field lies little-endian at the offset that the protocol gives it |
| `Proto.PackUnpack` | EncodeOverEthernet/Software/common/ojls_proto.h:87-113 | A received header is reproduced exactly if its bytes 14 and 15 are zero |
| `Proto.HdrPack` | EncodeOverEthernet/Software/common/ojls_proto.h:87-100 | Packing in place writes every byte of the layout |
| `Gate.RisingEdge` | EncodeOverEthernet/Hardware/pynq-z2/rtl/axis_ready_gate.vhd:106-154 | The clocked process, assignments in order, computes one equation per register |
| `Gate.EdgeConserves` | EncodeOverEthernet/Hardware/pynq-z2/rtl/axis_ready_gate.vhd:101-150 | At any edge with any inputs beats are neither made, changed nor reordered, and only a THRESH write or reset loses one: the held one, else the one accepted at that edge |
| `Gate.RunConserves` | EncodeOverEthernet/Hardware/pynq-z2/rtl/axis_ready_gate.vhd:101-125 | Over every run without a write or reset, beats accepted are beats delivered and then the held one |
| `Gate.LossBound` | EncodeOverEthernet/Hardware/pynq-z2/rtl/axis_ready_gate.vhd:117-150 | Over every run at most one beat is lost for each write or reset |
| `Gate.StableUntilHandshake` | EncodeOverEthernet/Hardware/pynq-z2/rtl/axis_ready_gate.vhd:101-125 | Once valid is up it and its beat stay until the handshake, however long that takes |
| `Gate.OneResponsePerWrite` | EncodeOverEthernet/Hardware/pynq-z2/rtl/axis_ready_gate.vhd:127-135 | Every register write gets exactly one response |
| `Gate.OneResponsePerRead` | EncodeOverEthernet/Hardware/pynq-z2/rtl/axis_ready_gate.vhd:90-141 | Every register read gets exactly one response |
| `Gate.ResetState` | EncodeOverEthernet/Hardware/pynq-z2/rtl/axis_ready_gate.vhd:144-151 | A reset leaves nothing held, nothing to answer and the full rate |
| `Gate.OpensByDraw` | EncodeOverEthernet/Hardware/pynq-z2/rtl/axis_ready_gate.vhd:110-115 | At a given percentage an edge leaves the gate open exactly if the draw before it is in that share of 65536; at 100 every edge does |
| `Gate.ShareIs` | EncodeOverEthernet/Software/src/ojls_server.c:255-261 | The share is pct * 65536 / 100 draws, and grows strictly with the percentage |
| `Gate.FullThroughput` | EncodeOverEthernet/Hardware/pynq-z2/rtl/axis_ready_gate.vhd:101-125 | At full rate the slice takes a beat at every edge from the second on and hands one over from the third |
| `Gate.Reproducible` | EncodeOverEthernet/Hardware/pynq-z2/rtl/axis_ready_gate.vhd:106-135 | From the second edge after a THRESH write the ready pattern depends on seed and threshold alone |
| `Gate.FlowsForever` | EncodeOverEthernet/Hardware/pynq-z2/rtl/axis_ready_gate.vhd:110-125 | A stream with steady source and sink goes on flowing after any time for exactly the percentages from one up |
| `Gate.OpensAtOnce` | EncodeOverEthernet/Hardware/pynq-z2/rtl/axis_ready_gate.vhd:110-115 | From fifteen percent the gate opens at the second edge after the write |
| `Xorshift.Inverse` | EncodeOverEthernet/Hardware/pynq-z2/rtl/axis_ready_gate.vhd:76-83 | xorshift32 has an explicit inverse |
| `Xorshift.FirstWords` | EncodeOverEthernet/Hardware/pynq-z2/rtl/axis_ready_gate.vhd:62-83 | The seed and the first two words after it |
| `Xorshift.NeverZero` | EncodeOverEthernet/Hardware/pynq-z2/rtl/axis_ready_gate.vhd:76-83 | From a nonzero seed the generator never reaches zero |
| `Xorshift.Periodic` | EncodeOverEthernet/Hardware/pynq-z2/rtl/axis_ready_gate.vhd:76-83 | Every word lies on a cycle, by injectivity and counting |
| `Xorshift.Recurs` | EncodeOverEthernet/Hardware/pynq-z2/rtl/axis_ready_gate.vhd:76-83 | Every draw comes back after any time |
| `Xorshift.FifthDraw` | EncodeOverEthernet/Hardware/pynq-z2/rtl/axis_ready_gate.vhd:62-63 | The fifth draw from the seed opens the gate at one percent |

## Left out

- Session.ServeConnection: without working resets, promises exact or honest answers only up to the first recovery whose DMA reset hung, because the source ignores that result and then stale pixels can enter the core; framing and memory bounds are promised beyond.
- Driver.Driver.Reset: a reset that hung is taken not to complete later by itself; the source does not look at it again, and every later start resets the engine anew. What is promised after a hung reset, the bounds on memory, a late one keeps too (ResetsSafe).
- Evidence.ThrottleIndependent: compares runs that delivered everything without an error; runs cut off earlier are covered by the prefix statement of StreamTold.
- Progress.FairInTime: how long is long enough depends on the run; a slow board may still time out.
- Client.RunStream: promises nothing once a picture overruns its buffer, because C does not either.
- Driver.Driver.Wait: waiting for interrupts is folded into the passing of time.
- Socket.Conn.Write: never transfers zero bytes without an error, and only finitely many calls are interrupted.
- Driver.Driver.Configure: its contract takes the core registers as clamping to the admitted range and the reset pulse as one event.
- Pgm.PgmLoad: stops where the swap leaves the buffer; what the source's loop then overwrites is not modelled.
- Pgm.PgmGeom: stops at the three tokens; what Python's int() makes of tokens that are not digits is not modelled.
- Client.RunSingle: one round; `-n` repeats it on the same connection and saves the last bitstream.
- Reply.ReadResponse: writing the files, their names and reconnecting are not modelled; a count of files of 2^30 or more is excluded.
- Encoder: the JPEG-LS core and its registers are not part of this model beyond the assumptions above.
- size_t is taken as 64 bits, as the AArch64 build has it; a 32-bit build agrees if its rx buffer is a whole number of pages. Descriptor buffers of 128 GiB or more, whose rings an int cannot count, are not modelled.
- Ring.RingBuild: a division by a chunk of 0 is taken as the AArch64 instruction has it; C leaves it undefined.
- Allocation failures (malloc, calloc), uio and u-dma-buf discovery and mapping, signals, options, printing, and throughput figures.
- The bus: S2MM and MM2S treat an address outside their buffer as a decode error; descriptor words that the driver writes as zero and nobody reads; evictions of clean cache lines; events between the six writes of one axidma_sg_start.
- The engine writes RXEOF only with a completed descriptor, never into one it marks with an error.
- AXI4-Lite read data of the gate, which is the live threshold and may change while a read waits.
- The sweep's remaining plumbing, the shell and Tcl scripts, device-tree overlays and clock setup.
