# A verified model of the UDS diagnostic stack

The program is an ECU-side diagnostic stack: the ISO-TP transport of ISO 15765-2, services of ISO 14229-1, their
timers and stores, and a CAN driver. This project models the parts with the most state and proves what they do over
whole runs. `dafny verify dfyconfig.toml` checks all of it.

## How the model is built

Each stateful object appears twice. A **step function** over a value (`IsoTpMachine.Step`, `SecurityAccess.Step`,
`DtcStore.Step`, ...) is the specification, and the properties of runs are lemmas about it. A **class** with the
object's fields, arrays and loops is proved, method by method, to take exactly those steps. The lemmas then speak about
histories: what was received, sent, tried or tested, not about fields. What stands on the wire (identifiers, bytes,
refusal codes, the generator of the checksum) is stated in numbers as well, without the functions that encode it.

| file | what it holds |
|---|---|
| `Words.dfy` | machine words and small helpers |
| `IsoTpCodec.dfy`, `IsoTpMachine.dfy`, `IsoTpEndpoint.dfy` | frames, the two state machines, the class |
| `IsoTpReceive.dfy`, `IsoTpTransmit.dfy`, `IsoTpProgress.dfy`, `IsoTpEndToEnd.dfy` | each direction over whole runs, how transfers progress, and both ends of one transfer |
| `IsoTpFlowControl.dfy`, `IsoTpResults.dfy` | the flow control frames of an endpoint and what each direction sends; what calls answer, and timeouts |
| `IsoTpStreams.dfy`, `IsoTpConversations.dfy`, `IsoTpLostFirst.dfy` | safety and liveness of whole conversations, and messages whose first frame is lost |
| `SecurityAccess.dfy`, `SecurityRuns.dfy`, `SecurityHistory.dfy`, `SeedKey.dfy` | the 0x27 service, its runs, its requests in terms of registrations and callback calls, the seed generators |
| `RxRing.dfy` | the driver's receive ring, preempted by its interrupt |
| `DtcStore.dfy`, `DtcManager.dfy`, `DtcReport.dfy` | trouble codes over their history, the table, the 0x19 report |
| `Download.dfy` | the 0x34, 0x36 and 0x37 services |
| `ReadData.dfy` | the 0x22 service |
| `Session.dfy`, `Timers.dfy`, `Crc16.dfy` | S3, soft and periodic timers, CRC-16 |

What comes from outside is a parameter of the call: the clock reading, what a callback answers, and `room`, the number
of frames that the CAN driver accepts in that call before it refuses one. Tick additions wrap modulo 2^32 as in the
source. `size_t` is taken as 32 bits wide, as on the microcontrollers the drivers are for. Bytes are integers below 256
where the program calculates with them and bit-vectors where it works on bits.
`dlc` is at most 8 and the sender's buffer must stay unchanged while a transfer is open
(`IsoTpEndpoint.IsoTp.BufferIntact`), because the endpoint keeps a pointer to it. A response buffer must have room for
what a service writes without checking: 6 bytes for 0x19, 3 for 0x22, and it is not the service's own table.

## Where the code differs from what is written about it

The model follows the code. These differences are proved, or are visible in the contracts named.

- `send_fc` shifts a constant that is already shifted, so the byte that leaves is the bare flow status. Two unmodified
  endpoints never get past a first frame (`IsoTpProgress.UnmodifiedPeersNeverContinue`); multi-frame transfers are
  proved for a peer that sends the flow control frame of ISO 15765-2.
- `send` accepts 4096 bytes, but the first frame then announces 0 (`IsoTpCodec.FirstFrameLengthRoundTrip`).
- A wrong sequence number is ignored; docs/isotp_notes.md:15 says that reception is aborted. As long as no first frame
  is lost, nothing wrong comes of it (`IsoTpStreams.StreamDelivers`). When one is lost, the receiver may continue the
  reception before it with frames of the next message and deliver bytes that nobody sent together
  (`IsoTpLostFirst.LostFirstFrameSplices`; `IsoTpLostFirst.SplicesIff` says exactly when). A message of 4096 bytes, whose
  first frame is refused, does the same (`IsoTpLostFirst.OversizedMessageSplices`).
- After a block the receiver sends no further flow control (`IsoTpFlowControl.FlowControlsAreFirstFrames`), so a sender that
  respects its block size finishes only messages of one block (`IsoTpProgress.OneClearanceSuffices`). A flow control frame
  with overflow status leaves the sender waiting, and a refused CAN frame leaves it stuck
  (`IsoTpResults.FlowControlResult`, `IsoTpProgress.StalledUntilNextTransfer`).
- In the last ten seconds before the tick count wraps, the end of the delay after three wrong keys wraps to a tick that
  is past: the level is never locked, and any number of keys can be tried (`SecurityRuns.NoLockBeforeWrap`,
  `SecurityRuns.RateBoundIff`).
- Nothing ever clears `unlocked`, although src/uds/services/security_access.cpp:149 says that leaving the session does
  (`SecurityRuns.UnlockProvenance` holds over whole runs, session changes included).
- Entering a session does not start the S3 timer, although docs/s3_server_timer.md:9 says so
  (`Session.UnarmedNeverExpires`). A deadline that wraps comes too early, or never if it wraps to 0 (`Words.DueIff`,
  `Session.ZeroDeadlineNeverComes`).
- A pass takes back the status bit that docs/dtc_status_bits.md:8 describes as "failed at least once this cycle"
  (`DtcStore.FailedThisCycleBit` gives the exact condition, `DtcStore.PassTakesBitBack` a run). The bit of docs/dtc_status_bits.md:9,
  "failed in current or previous cycle", stays over any number of cycles without a test (`DtcStore.PendingBit`,
  `DtcStore.StaysPending`).
- No code of the repository calls `TransferDataService::start`, so no block is accepted unless the application calls it
  (`Download.NothingWithoutStart`). The block counter wraps, so a block 256 places away passes for the due one
  (`Download.AcceptedIff`, `Download.FarBlockPasses`). docs/flash_sequence.md:25 has the compression and encryption
  nibbles the other way round.
- include/uds/hal/hal_timer.hpp:63-66 says that all timeouts survive the wrap of the tick count; `PeriodicTimer` does
  not (`Timers.PeriodicCorrectIff`), and tests/test_timing.cpp:21 expects a timeout not to have elapsed that has
  (`Timers.OverflowTestExpectation`).

## Model

| member | source | states |
|---|---|---|
| Words.DueIff | src/uds/uds_session.cpp:47-60 | A wrapped deadline is judged rightly at a true time within one wrap exactly when the due time lies in the same wrap of the tick count, or, for a deadline that wraps to 0, when nothing is due; used for S3, N_Cr and N_Bs |
| IsoTpCodec.FirstFrameLengthRoundTrip | src/uds/transport/isotp.cpp:184-190 | A first frame reads back as the message length exactly when the message has fewer than 4096 bytes; at 4096, which `send` accepts, it reads 0 and the receiver refuses it |
| IsoTpCodec.WireSpells | src/uds/transport/isotp.cpp:184-232 | The frames a message is cut into spell exactly its first bytes, and all of it when all frames are there |
| IsoTpCodec.CfShape | src/uds/transport/isotp.cpp:217-224 | The k-th consecutive frame has type 2, sequence number k modulo 16 and carries exactly its slice of the message |
| IsoTpCodec.EmittedFlowControlType | src/uds/transport/isotp.cpp:159-168 | The flow control byte that `send_fc` computes is truncated: the frame is recognised as a single frame, while the frame of ISO 15765-2 is recognised as flow control |
| IsoTpCodec.SingleFrameShape | src/uds/transport/isotp.cpp:175-182 | A single frame has dlc |m| + 1, the length in its first byte, then the message, then zeros |
| IsoTpCodec.FirstFrameShape | src/uds/transport/isotp.cpp:184-190 | The first two bytes of a first frame are 0x10 plus the length, high byte first, or announce 0 for 4096; then come six bytes of the message |
| IsoTpCodec.CfBytes | src/uds/transport/isotp.cpp:217-224 | The k-th consecutive frame begins with 0x20 + k modulo 16 and ends in zeros |
| IsoTpMachine.Step | src/uds/transport/isotp.cpp:28-263 | Every call keeps the state invariant: receiving means 6 <= received < expected <= 4095; a ready message has 1 to 4095 bytes; an open transfer has consecutive frames left |
| IsoTpMachine.OutputAppend | src/uds/transport/isotp.cpp:28-263 | What a run sends and delivers can be cut at any point: the rest depends on the state reached alone |
| IsoTpMachine.DuplexIndependence | src/uds/transport/isotp.cpp:28-263 | In any interleaving each direction ends in the state, and delivers the messages, of the run restricted to its own events, whatever state the other direction is in |
| IsoTpMachine.UnheardRefused | src/uds/transport/isotp.cpp:28-42 | A frame whose id is not rxId, whose dlc is 0 or whose type is above 3 is answered with Error, changes nothing and has nothing sent or delivered |
| IsoTpMachine.UnheardIgnored | src/uds/transport/isotp.cpp:28-42 | Dropping all such frames from any run leaves its final state, everything it sends and everything it delivers unchanged |
| IsoTpEndpoint.IsoTp.constructor | src/uds/transport/isotp.cpp:7-26 | A new endpoint is idle in both directions |
| IsoTpEndpoint.IsoTp.ProcessFrame | src/uds/transport/isotp.cpp:28-42 | The fields after a frame, its result and the frames sent are those of the receive step; that this step refuses every frame whose id is not rxId, or that is empty, is `IsoTpMachine.UnheardRefused` |
| IsoTpEndpoint.IsoTp.HandleSf | src/uds/transport/isotp.cpp:44-64 | Accepts exactly the single frames whose length is 1 to dlc - 1, and replaces whatever was being received or ready |
| IsoTpEndpoint.IsoTp.HandleFf | src/uds/transport/isotp.cpp:66-93 | Starts gathering with the six bytes of the frame, or refuses; sends one flow control frame if the driver takes it |
| IsoTpEndpoint.IsoTp.HandleCf | src/uds/transport/isotp.cpp:95-126 | Appends exactly the bytes still missing, never more than the frame has; a wrong sequence number leaves everything as it was; the MAX_PAYLOAD branch cannot be reached |
| IsoTpEndpoint.IsoTp.HandleFc | src/uds/transport/isotp.cpp:128-157 | WAIT restarts N_Bs, overflow and unknown status leave the transfer waiting, clear-to-send releases a burst |
| IsoTpEndpoint.IsoTp.Send | src/uds/transport/isotp.cpp:170-205 | Emits the single frame or first frame of exactly the caller's bytes and opens the transfer on the caller's buffer, or refuses and changes nothing |
| IsoTpEndpoint.IsoTp.BuildCf | src/uds/transport/isotp.cpp:217-224 | The frame cut from the retained buffer is the next consecutive frame of the message |
| IsoTpEndpoint.IsoTp.SendNextCf | src/uds/transport/isotp.cpp:207-236 | The loop sends exactly the next min(room, budget) consecutive frames and ends waiting, stalled or finished accordingly; the eight-bit block counter never pauses an unlimited block |
| IsoTpEndpoint.IsoTp.GetData | src/uds/transport/isotp.cpp:238-247 | Copies the first min(length, room) bytes of a ready message, changes no other byte of the buffer, and takes the message once |
| IsoTpEndpoint.IsoTp.Update | src/uds/transport/isotp.cpp:249-263 | Drops a reception or a waiting transfer whose armed deadline is reached, and nothing else |
| IsoTpEndpoint.IsoTp.SendFc | src/uds/transport/isotp.cpp:159-168 | The byte-wise built frame carries the bare flow status, block size and STmin in three bytes, if the driver takes it, and reads as a single frame of that length |
| IsoTpReceive.PartialIffExplained | src/uds/transport/isotp.cpp:66-258 | In every run the reception in progress is exactly what the frames accepted since the latest first frame amount to: sequence numbers 1, 2, 3, ... modulo 16, everything in between ignored |
| IsoTpReceive.CompleteIffReady | src/uds/transport/isotp.cpp:44-258 | In every run a message is ready exactly when the history finished it last: a single frame, or a first frame with its consecutive frames cut to the announced length, not yet read or replaced |
| IsoTpReceive.DeliveredIsHistory | src/uds/transport/isotp.cpp:238-247 | The texts delivered by a run are exactly, in order and each once, what its reads find in the history: the message ready at the read, cut to the room given |
| IsoTpFlowControl.FlowControlsAreFirstFrames | src/uds/transport/isotp.cpp:66-126 | Over every run an endpoint sends exactly one flow control frame per accepted first frame whose answer the driver takes: none after a block |
| IsoTpFlowControl.DuplexOutput | src/uds/transport/isotp.cpp:28-263 | The flow control frames of any run are what its receive-side events alone would have sent, and its other frames what its transmit-side events alone would have sent, in the same order |
| IsoTpTransmit.SentSpellsMessage | src/uds/transport/isotp.cpp:170-236 | In every run, under any flow control and refusals by the driver, the data frames since the last first frame are that message's frames in order without gap: they spell exactly its first bytes and the k-th carries sequence number k modulo 16 |
| IsoTpTransmit.SentIsInStep | src/uds/transport/isotp.cpp:170-236 | The fields of an open transfer agree with what is on the bus in every run |
| IsoTpTransmit.BlockLimit | src/uds/transport/isotp.cpp:143-216 | After a clear-to-send with block size bs > 0 at most bs consecutive frames leave before the next clear-to-send, whatever happens |
| IsoTpProgress.FlowControlProgress | src/uds/transport/isotp.cpp:143-236 | With constant block size the transfer is finished exactly from the ceil(n / bs)-th clear-to-send on (the first if bs = 0), whatever else comes between, and has sent min(c * bs, n) frames after c of them |
| IsoTpProgress.StalledUntilNextTransfer | src/uds/transport/isotp.cpp:130-262 | A transfer whose frame the driver refused stays stuck, through flow control and polls, until a new multi-frame send |
| IsoTpProgress.StepEmitsNoFlowControl | src/uds/transport/isotp.cpp:159-168 | No endpoint ever sends a frame that is recognised as flow control |
| IsoTpProgress.UnmodifiedPeersNeverContinue | src/uds/transport/isotp.cpp:128-168 | An endpoint that hears only unmodified endpoints never sends a consecutive frame |
| IsoTpProgress.OneClearanceSuffices | src/uds/transport/isotp.cpp:143-236 | A sender that hears just one well-spelt clear-to-send finishes exactly if its block size is 0 or covers all consecutive frames |
| IsoTpProgress.VaryingProgress | src/uds/transport/isotp.cpp:128-236 | Under flow control of any kind with varying block sizes a transfer has sent exactly min(n, sum of the sizes) of its frames, all n after a size of 0, and is finished exactly if that is all of them |
| IsoTpResults.DataResult | src/uds/transport/isotp.cpp:28-126 | In every run a data frame is answered with Ok if it finishes a message of the history, Pending if it joins the frames gathered for one, WrongSN if it is a consecutive frame out of turn, and Error otherwise |
| IsoTpResults.FlowControlResult | src/uds/transport/isotp.cpp:128-236 | In every transfer and by the bytes of the frame: 0x30 releases frames and is answered with Ok exactly if the last one goes out, or leaves the transfer stuck if the driver refuses one; 0x31 only renews N_Bs; 0x32 is reported as overflow and changes nothing |
| IsoTpResults.ReceptionTimeout | src/uds/transport/isotp.cpp:102-258 | An update gives a reception up exactly when N_Cr has passed since its latest frame in true time, under the condition of `DueIff` |
| IsoTpResults.TransferTimeout | src/uds/transport/isotp.cpp:128-263 | An update gives a waiting transfer up exactly when N_Bs has passed since the latest clear-to-send, WAIT or first frame, under the same condition |
| IsoTpEndToEnd.PromptBusDeliversIff | src/uds/transport/isotp.cpp:66-258 | When no poll is late, the message is ready exactly when no frame was lost and the last one has arrived |
| IsoTpEndToEnd.WholeTransfer | src/uds/transport/isotp.cpp:66-258 | Liveness: enough clear-to-send frames in time and a bus that loses nothing make exactly the message arrive |
| IsoTpEndToEnd.PlainTransfer | src/uds/transport/isotp.cpp:66-247 | Any message of 8 to 4095 bytes, with any block size the peer chooses and both ends in any state, is read by the peer after exactly ceil(n / bs) clear-to-send frames and its n + 1 frames in order |
| IsoTpEndToEnd.SingleFrameDelivers | src/uds/transport/isotp.cpp:44-182 | A message of 1 to 7 bytes is ready as soon as its single frame arrives, at any receiver |
| IsoTpEndToEnd.LossyBusDelivers | src/uds/transport/isotp.cpp:66-247 | Once the first frame has arrived, over any in-order bus that loses and repeats further frames the reader gets the message of 8 to 4095 bytes unchanged, at most once, or nothing; it is ready only if every frame arrived |
| IsoTpEndToEnd.EndToEnd | src/uds/transport/isotp.cpp:66-236 | The frames a sender put on the bus for its latest message, in any run, give a receiver in any state that message or nothing, if the first of them arrives |
| IsoTpStreams.SentIsDescribed | src/uds/transport/isotp.cpp:159-236 | In every run the frames on the bus open the accepted messages in order and in between continue the latest long one, apart from flow control frames that read as empty |
| IsoTpStreams.StreamDelivers | src/uds/transport/isotp.cpp:28-263 | Over whole conversations (single frames, transfers given up for new ones, any flow control) and an in-order bus that loses no first frame, the texts delivered are a selection of the messages sent, in order and unchanged; only a repeated single frame can repeat its message |
| IsoTpStreams.SelectedIsSubsequence | src/uds/transport/isotp.cpp:28-263 | Without repeated single frames that selection is a subsequence: later texts are later messages |
| IsoTpConversations.ConversationDelivers | src/uds/transport/isotp.cpp:28-263 | Liveness over whole conversations: nothing lost or repeated, polls in time and a fetch before each next message give exactly the messages whose frames have all gone out without another message begun in between |
| IsoTpConversations.SentOpens | src/uds/transport/isotp.cpp:170-205 | The log of a sender opens exactly as many messages as its calls had accepted |
| IsoTpLostFirst.NothingOfIt | src/uds/transport/isotp.cpp:95-102 | Of a message whose first frame is lost, a receiver that is not in the middle of a reception delivers nothing |
| IsoTpLostFirst.SplicesIff | src/uds/transport/isotp.cpp:95-123 | One that is in the middle of another reception delivers something exactly if the consecutive frames from the first matching number on are enough to fill it |
| IsoTpLostFirst.Splices | src/uds/transport/isotp.cpp:95-123 | What it then delivers is the other message continued with the bytes of this one |
| IsoTpLostFirst.LostFirstFrameSplices | src/uds/transport/isotp.cpp:95-123 | A failing run of an actual sender: for any two messages, the first of 20 bytes and the second of at least 20, a bus that loses the last frame of the first and the first frame of the second delivers 13 bytes of one and 7 of the other, which is no selection of the messages sent |
| IsoTpLostFirst.OversizedMessageSplices | src/uds/transport/isotp.cpp:71-190 | A failing run of an actual sender on a bus that loses nothing: a message of 4096 bytes replaces an unfinished one |
| Session.UdsSession.DoTransition | src/uds/uds_session.cpp:15-30 | The new state, and success exactly unless programming is requested outside the default session |
| Session.UdsSession.DoUpdate | src/uds/uds_session.cpp:39-54 | Times out, and notifies, exactly in an open session whose armed deadline is reached |
| Session.UdsSession.DoKeepAlive | src/uds/uds_session.cpp:56-61 | Re-arms the timer of an open session and only of an open one |
| Session.RunInvariant | src/uds/uds_session.cpp:15-61 | In every run: default session means no deadline, a reported timeout means default session, programming is entered from the default session only |
| Session.DeadlineIsLatestKeepAlive | src/uds/uds_session.cpp:39-61 | In every run an armed deadline is the latest keep-alive of the still open session plus S3 |
| Session.UnarmedNeverExpires | src/uds/uds_session.cpp:27-50 | Entering a session does not start the timer: a session never kept alive outlasts every update |
| Session.S3Exact | src/uds/uds_session.cpp:39-61 | A session kept alive at any true time and neither left nor kept alive again ends, reporting a timeout, at the first update that finds the wrapped deadline reached; that is exactly t + S3 under the condition of `DueIff`, in particular while nothing wraps |
| Session.ZeroDeadlineNeverComes | src/uds/uds_session.cpp:47-60 | A deadline that wraps to 0 never ends the session |
| Session.CurrentIffEntered | src/uds/uds_session.cpp:15-54 | In every run a session other than the default one is the current one exactly if it is the target of the latest transition granted since the last reset or timeout |
| Session.ReportedIffJustTimedOut | src/uds/uds_session.cpp:15-61 | In every run a timeout is reported exactly from the update that ended an open session until the next call |
| SecurityAccess.SecurityAccessService.RegisterLevel | src/uds/services/security_access.cpp:15-28 | Appends an odd level while there is room, reports success exactly then |
| SecurityAccess.SecurityAccessService.FindLevel | src/uds/services/security_access.cpp:30-36 | Finds the first entry for the level that a sub-function belongs to |
| SecurityAccess.SecurityAccessService.DoIsUnlocked | src/uds/services/security_access.cpp:38-43 | Tells whether the first entry for a level is unlocked |
| SecurityAccess.SecurityAccessService.DoUpdate | src/uds/services/security_access.cpp:45-54 | Releases exactly the levels whose delay is over |
| SecurityAccess.SecurityAccessService.DoHandle | src/uds/services/security_access.cpp:56-138 | Table, active level, response and callback calls of a request are those of the request step, refusals included; `SecurityHistory.RequestAnswered` gives that step in numbers, the check of the session among them |
| SecurityRuns.HandleEntry | src/uds/services/security_access.cpp:72-136 | A request that asks no callback changes nothing; one that asks a callback changes only the entry of the level asked |
| SecurityRuns.UnlockProvenance | src/uds/services/security_access.cpp:30-137 | In every run a level is unlocked exactly if one of its keys was accepted; every key is checked directly after, and against, the seed issued last over all levels, for the same level; no seed is checked twice and an unlocked level is never asked again |
| SecurityRuns.ZeroSeedMeansUnlocked | src/uds/services/security_access.cpp:89-106 | With four-byte seeds from the XOR algorithm's generator in any non-zero state, the reply is all zeros exactly when the level is already unlocked |
| SecurityRuns.RateBound | src/uds/services/security_access.cpp:45-130 | In every run whose clock does not go back and that ends more than ten seconds before the wrap, at most 3 * (1 + t / 10000) wrong keys have been tried for a level by tick t; outside a delay at most 2 + 3 * (t / 10000) |
| SecurityRuns.RunIsOnSchedule | src/uds/services/security_access.cpp:45-130 | The invariant behind it: fewer than three failures and no lock, or exactly three with the tick before the end of the delay, and 10000 * (failures / 3) delays served or being served |
| SecurityRuns.RateBoundIff | src/uds/services/security_access.cpp:117-124 | Every run ending at tick T with a clock that does not go back keeps the bound exactly if T + 10000 < 2^32 |
| SecurityRuns.NoLockBeforeWrap | src/uds/services/security_access.cpp:117-124 | From T = 2^32 - 10000 on any number of wrong keys can be tried at tick T: the end of the delay wraps and the level is never locked |
| SecurityRuns.RateBoundAttained | src/uds/services/security_access.cpp:117-127 | For every number of delay periods a run uses the bound up |
| SecurityHistory.SessionIsHistory | src/uds/services/security_access.cpp:15-28 | In every run the session a level requires is that of its first registration, among the first eight odd levels |
| SecurityHistory.CallbacksInSession | src/uds/services/security_access.cpp:69-115 | In every run each seed and each key check was asked of the callbacks by a request for just that level, in the session the level was registered for |
| SecurityHistory.UnlockedInSession | src/uds/services/security_access.cpp:83-131 | A level is unlocked only if a right key for it arrived in the session it requires |
| SecurityHistory.RequestAnswered | src/uds/services/security_access.cpp:63-137 | What every request is answered in every run, in numbers and order of precedence: 0x13, 0x12, 0x37, 0x7F (any other session), 0x24 (no seed pending), 0x35 and 0x36 (wrong key), 0x67 with seed, zeros or nothing; refused without a callback means unchanged |
| SeedKey.NextSeedInjective | src/uds/security/seed_key.cpp:11-14 | The xorshift step maps different states to different states |
| SeedKey.NextLfsrInjective | src/uds/security/seed_key.cpp:42-48 | So does the LFSR step |
| SeedKey.NeverZero | src/uds/security/seed_key.cpp:11-48 | From any non-zero state neither generator reaches zero in any number of steps |
| SeedKey.SeedBytesNonZero | src/uds/security/seed_key.cpp:7-20 | The four seed bytes are never all zero |
| SeedKey.OneKeyPerSeed | src/uds/security/seed_key.cpp:22-38 | Exactly one key opens a four-byte seed under a mask |
| SeedKey.XorSeeds.GenerateSeed | src/uds/security/seed_key.cpp:7-20 | Advances the state by one step and returns its bytes, most significant first; with less than four bytes of room nothing happens |
| SeedKey.LfsrGenerator.Next | src/uds/security/seed_key.cpp:42-48 | Advances the state by one LFSR step and returns it |
| SeedKey.LfsrGenerator.constructor | src/uds/security/seed_key.cpp:40 | Whatever the seed, no word that the generator will ever produce is zero |
| SeedKey.NextSeedBits | src/uds/security/seed_key.cpp:11-14 | The xorshift step bit by bit: add the bit 13 places below, then 17 above, then 5 below |
| SeedKey.NextLfsrBits | src/uds/security/seed_key.cpp:42-48 | The LFSR step bit by bit: all bits move down, the one that falls out is added at the eighteen taps |
| SeedKey.WordIsSum | src/uds/security/seed_key.cpp:28-35 | Four bytes stand for the number with the first one most significant |
| SeedKey.KeyBytes | src/uds/security/seed_key.cpp:22-38 | The right key is the seed with the mask added byte by byte |
| RxRing.RingIsFifo | stm32/src/stm32_can.cpp:51-92 | In every interleaving of interrupts with the steps of `receive`, frames are delivered once each, whole and in the order accepted; the rest are those still in the ring, never more than N - 1 |
| RxRing.StepRefines | stm32/src/stm32_can.cpp:51-92 | Every atomic step is a step of a bounded queue, and a frame is dropped exactly when N - 1 slots are occupied |
| RxRing.IrqRefines | stm32/src/stm32_can.cpp:87-92 | The interrupt enqueues or drops, and never touches the slot that is being copied |
| RxRing.MainRefines | stm32/src/stm32_can.cpp:51-60 | The steps of `receive` leave the queue alone until the last one, which takes the oldest frame; "empty" is reported only of an empty queue |
| RxRing.ReceiveIsWaitFree | stm32/src/stm32_can.cpp:51-92 | A receive begun on a non-empty ring delivers the oldest frame after exactly its own k + 3 steps, however many interrupts come between |
| RxRing.CanRing.OnRxIrq | stm32/src/stm32_can.cpp:87-92 | Appends the frame to the queue, or leaves everything if it is full |
| RxRing.CanRing.Advance | stm32/src/stm32_can.cpp:51-60 | Performs the next step of `receive` on the driver's fields |
| RxRing.CanRing.Receive | stm32/src/stm32_can.cpp:51-60 | Uninterrupted: takes the oldest frame, or reports an empty ring |
| Crc16.Crc16Ccitt | src/uds/utils/crc.cpp:30-43 | The loops compute the checksum defined as a fold over the bytes; `Crc16.ChecksumIsRemainder` says which number that is |
| Crc16.CrcIsBitSerial | src/uds/utils/crc.cpp:30-43 | That checksum is the bit-serial one: the register after feeding the message bits one by one |
| Crc16.CrcAppend | src/uds/utils/crc.cpp:30-43 | A checksum can be continued across any split of the data |
| Crc16.BurstDetected | src/uds/utils/crc.cpp:30-43 | Two messages of equal length that differ only within 16 consecutive bits, anywhere, have different checksums |
| Crc16.AdjacentBytesDetected | src/uds/utils/crc.cpp:30-43 | In particular no change confined to one byte or two adjacent bytes goes unnoticed |
| Crc16.ShiftInjective | src/uds/utils/crc.cpp:35-40 | The per-bit step is a bijection of the register |
| Crc16.Residue | src/uds/utils/crc.cpp:30-43 | A message followed by its own checksum, high byte first, has checksum 0 |
| Crc16.OddFlipsDetected | src/uds/utils/crc.cpp:30-43 | Any odd number of flipped bits, wherever they are, changes the checksum |
| Crc16.ParityFeed | src/uds/utils/crc.cpp:35-40 | A message bit flips the parity of the register exactly if it is set |
| Crc16.UndetectedIffMultiple | src/uds/utils/crc.cpp:30-43 | Two messages of equal length have the same checksum exactly if their bits differ by a polynomial multiple of x^16 + x^12 + x^5 + 1 |
| Crc16.ChecksumIsRemainder | src/uds/utils/crc.cpp:30-43 | Of all pairs of bytes behind a message the checksum is the one that makes the whole, with the initial value added to its first 16 bits, a multiple of that polynomial |
| Crc16.MessageBit | src/uds/utils/crc.cpp:33-35 | The bits meant are those of the bytes, most significant first |
| DtcStore.Find | src/uds/dtc/dtc_manager.cpp:96-102 | The index found is that of the first entry with the code, or the number of entries |
| DtcStore.RunWellFormed | src/uds/dtc/dtc_manager.cpp:12-110 | In every run codes are unique 24-bit numbers, at most 64 of them, and every entry is active without extended data |
| DtcStore.StatusIsHistory | src/uds/dtc/dtc_manager.cpp:12-110 | In every run the status byte of every code is exactly what its history stands for: last result and any failure since it was cleared, and whether a test ran in this cycle |
| DtcStore.StatusValues | src/uds/dtc/dtc_manager.cpp:21-108 | Only the status bytes 0x50, 0x40, 0x00, 0x28, 0x68, 0x2F and 0x6D occur |
| DtcStore.FailedThisCycleBit | src/uds/dtc/dtc_manager.cpp:39-108 | Bit 1 says "failed at least once in this cycle" exactly unless a later test of the same cycle passed |
| DtcStore.ClearGroupOfAll | src/uds/dtc/dtc_manager.cpp:52-73 | On every reachable store clearing group 0xFFFFFF is clearing everything |
| DtcStore.Matching | src/uds/dtc/dtc_manager.cpp:75-94 | An entry is selected by a mask exactly if it is in the store and matches |
| DtcStore.PassTakesBitBack | src/uds/dtc/dtc_manager.cpp:39-49 | A failing run: a code that fails and then passes in one cycle has the bit off |
| DtcStore.PendingBit | src/uds/dtc/dtc_manager.cpp:39-49 | Bit 2 says whether the last test failed; that is "failed in the current or previous cycle" exactly if no test failed since the clear, the latest failed at most one cycle ago, or it passed and the latest failure is older |
| DtcStore.StaysPending | src/uds/dtc/dtc_manager.cpp:39-110 | A failing run for every n: a code that fails once is still pending n cycles later |
| DtcStore.ClearGroupExact | src/uds/dtc/dtc_manager.cpp:63-73 | On every reachable store exactly the codes that have every one of the mask's low 24 bits, or all codes for 0xFFFFFF, get status 0x50 and an empty snapshot; every other entry is unchanged |
| DtcStore.ClearGroupForgets | src/uds/dtc/dtc_manager.cpp:63-73 | Over runs exactly these codes lose their history |
| DtcStore.SnapshotIsHistory | src/uds/dtc/dtc_manager.cpp:52-121 | In every run the snapshot of a code is the first 64 bytes of the one given last since it was cleared |
| DtcStore.CodesAreRegistered | src/uds/dtc/dtc_manager.cpp:12-29 | In every run the table has exactly the codes registered, each once, in order, no more than 64 |
| DtcManagement.DtcManager.FindEntry | src/uds/dtc/dtc_manager.cpp:96-102 | The loop finds the first entry for the low 24 bits of the code |
| DtcManagement.DtcManager.RegisterDtc | src/uds/dtc/dtc_manager.cpp:12-29 | Adds an untested entry unless the table is full or has the code; returns its index or -1 |
| DtcManagement.DtcManager.SetTestResult | src/uds/dtc/dtc_manager.cpp:31-50 | The table after a test is that of the test step |
| DtcManagement.DtcManager.DoClearAll | src/uds/dtc/dtc_manager.cpp:52-61 | The loop resets every entry |
| DtcManagement.DtcManager.DoClearGroup | src/uds/dtc/dtc_manager.cpp:63-73 | The loop resets exactly the entries in the group, which are those of `DtcStore.ClearGroupExact`: codes that have all bits of the mask, or all codes for 0xFFFFFF |
| DtcManagement.DtcManager.UpdateOpCycle | src/uds/dtc/dtc_manager.cpp:104-110 | The loop starts a new operation cycle for every entry |
| DtcManagement.DtcManager.SetSnapshot | src/uds/dtc/dtc_manager.cpp:112-121 | Stores the first 64 bytes for a known code and nothing otherwise |
| DtcManagement.DtcManager.CountByStatus | src/uds/dtc/dtc_manager.cpp:75-82 | The loop counts the matching entries |
| DtcReport.ReadDtcInformation.WriteDtc | src/uds/services/read_dtc_information.cpp:62-72 | Appends exactly the four bytes of the entry, or nothing if they do not fit |
| DtcReport.ReadDtcInformation.WriteList | src/uds/services/read_dtc_information.cpp:74-80 | Appends exactly the matching entries that fit, in registration order |
| DtcReport.ReadDtcInformation.Handle | src/uds/services/read_dtc_information.cpp:7-53 | The response buffer holds exactly the answer to the request, refusals included |
| DtcReport.ListingDecodes | src/uds/services/read_dtc_information.cpp:35-80 | For every reachable store and buffer a client decodes from a listing the matching (code, status and mask) lines in order, as many as fit; all of them exactly if 3 + 4n bytes fit |
| DtcReport.CountAgrees | src/uds/services/read_dtc_information.cpp:25-92 | With the server's buffer (any of at least 259 bytes) no listing is cut short and it has as many lines as the count response announces |
| DtcReport.ListingTellsHistory | src/uds/services/read_dtc_information.cpp:35-80 | A line is in the listing exactly if its code is registered, its history has one of the asked-for bits, and it shows those bits |
| DtcReport.CountOnTheWire | src/uds/services/read_dtc_information.cpp:25-92 | 19 01 is answered with 59 01 FF 01 and the number of matching codes in two bytes |
| DtcReport.ListOnTheWire | src/uds/services/read_dtc_information.cpp:35-80 | 19 02 and 19 0A are answered with 59, the sub-function, FF and four bytes for each matching code in the order of registration: the code, most significant byte first, and the asked-for status bits |
| DtcReport.RefusedOnTheWire | src/uds/services/read_dtc_information.cpp:14-49 | Every other request is refused with 0x12, or with 0x13 for its length |
| Download.TransferDataService.Handle | src/uds/services/transfer_data.cpp:6-46 | State, response and the block handed over are those of the block step; a refused or failed block leaves the sequencer as it was |
| Download.RequestDownloadService.ParseNumber | src/uds/services/request_download.cpp:47-55 | The loop computes the big-endian value of the bytes modulo 2^32 |
| Download.RequestDownloadService.Handle | src/uds/services/request_download.cpp:6-73 | Refuses in the source's order of checks or opens the download; the application is offered exactly the parsed request |
| Download.WrapsIff | src/uds/services/request_download.cpp:47-55 | The parsed number is the number in the request exactly when all bytes before the last four are zero |
| Download.BlockLengthExact | src/uds/services/request_download.cpp:65-71 | The sixteen-bit block length in the response is the callback's exactly when it is below 65536 |
| Download.CountersFollow | src/uds/services/transfer_data.cpp:24-40 | In every run the k-th block accepted since the start carries counter k modulo 256 and the next one must continue the series |
| Download.NothingWithoutStart | src/uds/services/transfer_data.cpp:19-22 | No run without the start call accepts a block: RequestDownload does not arm TransferData |
| Download.AcceptedIff | src/uds/services/transfer_data.cpp:24-40 | A client's block is accepted exactly if the transfer is armed, the callback agrees and the block is the next one up to a multiple of 256 |
| Download.PrefixOnly | src/uds/services/transfer_data.cpp:24-40 | Whatever is lost, repeated, reordered or failed within 255 blocks, the data handed over is the file's first blocks, each once and in order |
| Download.StreamArrives | src/uds/services/transfer_data.cpp:24-40 | A client that repeats each block until one copy is accepted, and perhaps more often, gets the whole file across; surplus copies are refused |
| Download.FarBlockPasses | src/uds/services/transfer_data.cpp:24-40 | A failing run: right after the start, block 256 is accepted as block 0 |
| Download.RequestTransferExitService.Handle | src/uds/services/request_transfer_exit.cpp:6-34 | A successful exit resets both services; any other leaves both as they were; an open download's callback is asked about the request parameters |
| Download.StateIsHistory | src/uds/services/request_transfer_exit.cpp:13-31 | In every run the state of the three services is its history: open, started, and the counter given by the number of blocks accepted since the start; nothing refused or failed leaves a trace |
| Download.BuiltIsParsed | src/uds/services/request_download.cpp:33-55 | Round trip: a request built from address, length, their widths and the two format nibbles is offered to the application as exactly these, whatever follows |
| Download.RefusalCodes | src/uds/services/request_download.cpp:13-62 | In every run the three services refuse exactly with these numbers, in this order, according to what has been opened, started and accepted |
| Timers.ElapsedExact | include/uds/hal/hal_timer.hpp:9-11 | On ticks that wrap, the comparison is right for true distances below 2^32, and beyond them exactly when the distance modulo 2^32 reaches the timeout too |
| Timers.OverflowTestExpectation | tests/test_timing.cpp:19-22 | The second expectation of the overflow test does not follow from the code: 354 ms have elapsed there, more than 99 |
| Timers.SoftTimer.DoStart | include/uds/hal/hal_timer.hpp:17 | The timer counts from the current tick |
| Timers.SoftTimer.IsExpired | include/uds/hal/hal_timer.hpp:21-24 | False of a stopped timer, otherwise the wrapped comparison |
| Timers.ExpiredIffHistory | include/uds/hal/hal_timer.hpp:17-24 | In every run, less than 2^32 ms after the last start or restart, expired means running and the timeout has passed in true time |
| Timers.PeriodicTimer.DoTick | include/uds/hal/hal_timer.hpp:46-51 | Fires exactly if started and due by the plain comparison, and re-arms from the current tick |
| Timers.PeriodicCorrectIff | include/uds/hal/hal_timer.hpp:44-51 | A tick does the right thing exactly when the due time and the tick lie in the same wrap of the count: the comparison is not wrap-safe |
| Timers.PeriodicFiresEarly | include/uds/hal/hal_timer.hpp:44-49 | Started 500 ms before the count wraps, a timer of 1000 ms fires at once |
| Timers.FiringsSpaced | include/uds/hal/hal_timer.hpp:44-51 | While nothing wraps the k-th firing is at least k periods after the start and no due tick goes by without firing |
| Timers.FiresAtMostOncePerPeriod | include/uds/hal/hal_timer.hpp:44-51 | While nothing wraps the timer has fired at most (now - start) / period times |
| ReadData.ReadDataByIdentifierService.RegisterDid | src/uds/services/read_data_by_identifier.cpp:7-12 | Appends an entry while fewer than 64 are registered |
| ReadData.ReadDataByIdentifierService.FindDid | src/uds/services/read_data_by_identifier.cpp:14-19 | Finds the first entry for an identifier |
| ReadData.ParseLayout | src/uds/services/read_data_by_identifier.cpp:40-74 | A client that knows the lengths reads back exactly the identifiers asked for with their data |
| ReadData.ReadDataByIdentifierService.Handle | src/uds/services/read_data_by_identifier.cpp:21-76 | The response buffer holds exactly the assembled response, or the refusal for the first identifier that cannot be served, whatever the callbacks write at each call; `ReadData.AnswerExact` gives both byte by byte |
| ReadData.AnswerIff | src/uds/services/read_data_by_identifier.cpp:28-75 | A response is positive exactly when there are values that serve every identifier (known, readable, head fits, callback writes something into the room left), and then lays them out in request order; nothing is assumed of the callbacks |
| ReadData.FixedAnswerIff | src/uds/services/read_data_by_identifier.cpp:28-75 | For identifiers of fixed lengths that is exactly when the whole response fits |
| ReadData.AnswerExact | src/uds/services/read_data_by_identifier.cpp:28-75 | The answer to any request, byte by byte: either each item is the two bytes of the request with the value of the first entry whose number is 256 * high + low, or the code of the first obstacle (0x31, 0x22, 0x14), or 0x13 |

## Left out

- IsoTpEndToEnd.EndToEnd: asks that the first frame of the transfer arrives first; `IsoTpStreams.StreamDelivers` and the lemmas of `IsoTpLostFirst` cover the other cases.
- IsoTpStreams.StreamDelivers: asks that no first frame is lost and no message has 4096 bytes; the lemmas of `IsoTpLostFirst` show what happens otherwise. A bus that changes the order of frames is not modelled.
- IsoTpEndToEnd.WholeTransfer: asks for a constant block size and a driver that takes every frame; varying sizes are in `IsoTpProgress.VaryingProgress`, refusals in the safety theorems and `IsoTpProgress.StalledUntilNextTransfer`.
- IsoTpProgress.VaryingProgress: asks that no poll finds N_Bs expired (the deadline is the wrapped one that the code compares with) and that the driver takes what a clear-to-send releases; what a refusal does is in `IsoTpResults.FlowControlResult`.
- IsoTpResults.FlowControlResult: the same is asked of the history before the frame; the frame itself may find a driver that takes any number.
- Words.DueIff: speaks of a true time less than one wrap after the timer was armed, and so do `Session.S3Exact`, `IsoTpResults.ReceptionTimeout` and `IsoTpResults.TransferTimeout`; 49 days without a poll are not modelled.
- IsoTpConversations.ConversationDelivers: asks for an idle receiver at the start and a bus that neither loses nor repeats.
- SecurityRuns.RateBound: asks that the run ends more than ten seconds before the wrap of the tick count; beyond that the bound is false, as `SecurityRuns.RateBoundIff` says.
- Download.PrefixOnly: asks that copies are less than 256 blocks away from the due one; farther ones can be mistaken for it, as `Download.AcceptedIff` says exactly.
- DtcReport.ReadDtcInformation.WriteList: the iteration over matching entries is written together with the callback it is used with; `for_each` with an arbitrary callback is not modelled.
- The body of `receive` in the driver: the order of its memory accesses is taken from the source; reordering by compiler or processor is not modelled. The F1 and H7 drivers have the same ring.
- STmin: the value is stored and never used when sending.
- Null callbacks are modelled by the answer that leads to the same branch; a callback that writes more than the room it is given is not modelled.
- Contents of a snapshot beyond its length field, `set_freeze_frame` and `get_freeze_frame`: copies without further logic.
- `LfsrGenerator::fill`, `checksum8` and `crc32` (its table is abbreviated in the source): no state or no table to speak about.
- The server's dispatch, TesterPresent (which always passes tick 0 to the session) and the remaining one-shot services: short branches around application callbacks.
- HAL calls, filters, FD frames, build files: hardware plumbing.
- Declarations that stand outside their class in include/uds/dtc/dtc_manager.hpp:58-77 and the unused callback in src/uds/services/read_dtc_information.cpp:96-109.
