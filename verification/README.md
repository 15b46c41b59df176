# Verified model of the Discovery 2 diagnostic stack

d2diag talks to the control modules of a car over a K-line: one half-duplex wire, shared by all modules,
noisy, and echoing everything the tester sends. This project models the parts of it whose correctness is
not visible from reading one function, and proves what they keep over every input and every run.

The model is layered like the program.

- **Protocol.** `ByteStrings`, `Frame`, `Scanner`, `Bus`, `KLine`, `Kwp2000`, and the node firmware's twin of
  the reader, `Firmware`. The bus is an adversary: after every transmission it delivers an arbitrary list of
  receive results - chunks of any size, silence, or the caller's deadline passing - and a flush throws away
  what is left of it. `Readers` compares the three independent readers of one reply.
- **Sessions and polling.** `Session` (the retrying establishment, interruptible by commands of other threads,
  and the teardown), `Unlocking` (its follow-up for the Td5, from the bytes heard), `Poller` (the server's poll loop and its command queue), `FaultScan`, `SlabsSource`
  (the throttled SLABS source) and `Fuel`. Time is whatever the clock says; luck decides what the bus answers.
  `BusTrace` reads off a trace who holds the bus.
- **Durable state.** `Outbox` (the contribution queue, on a disk that may refuse a write and a host that may
  die at every post and save) and `SignalStore` (record files behind a cache).
- **Inference from bytes.** `Splitter`, `SearchState`, `Calibration`, `InputWatch` and `Faults`.

Code that changes state in the source is a class or a loop here, and its contract ties the new state to a
function of the old one; the theorems are about those functions. Pure code is functions.

Where the code and its own comments disagree, the model follows the code:

- `src/d2diag/kwp2000/kwp2000.py:130` says the echo does not interfere with the tolerant search. On a silent
  bus it can be taken for the answer: the echo of `21 3E` ends in its checksum 0x61, the positive SID
  (`ReadOf3EIsMistaken`), and the payload of `21 61` is the positive SID. `RequestAnswersItselfIff` gives the
  exact condition on the request, `EchoAloneAnswersIff` on any echo. With a reply behind the echo another
  condition decides, `TolerantReadsReplyIffEchoInnocent`.
- `src/d2diag/kwp2000/kwp2000.py:87-92` promises to wait out responsePending. Only the strict stack does.
  The tolerant reader, which every module uses, reports it as a negative response even if the reply follows
  in the same burst, and the firmware reports no answer (`OnlyStrictWaits`).
- `src/d2diag/kline/kline.py:195` says a physical echo contains no 0xC1. A damaged echo that does passes for an
  answer (`PhysicalEchoMistaken`). `PhysicalEchoSafeIff` says for which addresses that cannot happen: neither is
  0xC1, and their sum is not 0xBF modulo 256, which would make the checksum 0xC1.
- `src/d2diag/kline/kline.py:301-308` promises the first frame with a valid checksum. If the line pauses
  inside a frame whose data looks like a frame, the inner one is returned (`EmbeddedFrameIsReadInstead`);
  `ReadsWholeFrameIffDelivered` gives the exact condition.
- The strict and tolerant service layers can never accept a reply to service 0x3F or 0x7F, because its
  positive SID is 0x7F, the negative-response code (`NegativeSidNeverSucceeds`). The condition is part of
  `StrictStackAnswers`.
- The firmware keeps 96 bytes of a burst. `FirmwareAnswersPrefixIff` says exactly when this changes its answer.
- On undamaged replies the unlocking step fails for exactly two keys, `7F 27` and `7B 7F`, whose echo reads as
  a rejection (`UnlockAnswersSeedWithKey`). A key that is rejected or not answered at all is reported as accepted
  exactly if its own frame holds 0x67, as a key byte or as the checksum (`UnansweredUnlockFails`).
- `src/d2diag/kline/frame.py:85-113` decodes frames without data, which the encoder refuses to build
  (`DecodeOfEmpty`); the scanner skips them.
- `tools/map_inputs.py:182-188` stores a bit's name without clearing the bit first, so a bit can end up with
  two names (`UpsertAloneKeepsOneToOneIff`); the mapper's label handler clears it first and keeps names and
  bits one to one.

## Model

| member | source | states |
|---|---|---|
| Frame.EncodeRejects | src/d2diag/kline/frame.py:54-58 | encoding fails exactly for an empty data field or one over 255 bytes, each with its own error, in every address mode |
| Frame.DecodeEncode | src/d2diag/kline/frame.py:36-113 | decoding an encoded frame, whatever follows it, returns its data and its addresses, for 1-255 bytes in all address modes |
| Frame.DecodeFramed | src/d2diag/kline/frame.py:85-113 | decoding accepts every frame of the standard, with either length form, and returns its data field and route |
| Frame.DecodeSound | src/d2diag/kline/frame.py:85-113 | conversely, whatever decoding accepts with a data field begins with a frame of the standard carrying exactly that field and route |
| Frame.DecodeOfEmpty | src/d2diag/kline/frame.py:102-113 | decoding accepts the long header announcing no data, with a valid checksum |
| Frame.EmptyDecodeSound | src/d2diag/kline/frame.py:102-113 | and returns no data only for such a frame |
| Frame.FramedPrefixFree | src/d2diag/kline/frame.py:36-71 | at most one frame starts a given byte string: addressing, data and length form are determined |
| Frame.DamageIsDetected | src/d2diag/kline/frame.py:110-112 | a change to any single byte that does not govern the length is a checksum error, whatever follows the frame |
| Frame.ReencodeIffCanonical | src/d2diag/kline/frame.py:59-69 | re-encoding a decoded frame restores its bytes exactly if it used the short header wherever that fits |
| ByteStrings.SumConcat | src/d2diag/kline/frame.py:31-33 | the checksum's sum is additive over concatenation |
| ByteStrings.BitsMakeByte | tools/map_inputs.py:41-42 | the eight bits of a byte, weighted 1 to 128, make it up: bit 0 is the lowest |
| ByteStrings.FindFrom | src/d2diag/kwp2000/kwp2000.py:135-138 | the search returns the least occurrence at or after an index, and -1 only if there is none |
| Scanner.ScanForFrame | src/d2diag/kline/kline.py:327-355 | the scanning loop, with every index in range, computes the first-frame function the lemmas below characterise |
| Scanner.NoneIffFrameless | src/d2diag/kline/kline.py:327-355 | the scan finds nothing exactly if no start index has a complete, non-empty, checksum-valid frame |
| Scanner.SomeIffLeastStart | src/d2diag/kline/kline.py:327-355 | it returns a frame and the bytes to drop exactly if that frame has the least start of all frames in the buffer |
| Scanner.GlitchIsSkipped | src/d2diag/kline/kline.py:301-355 | glitch, frame, tail yields the frame's data whenever no frame starts in the glitch |
| KLine.ReadFrameAccounts | src/d2diag/kline/kline.py:310-325 | a successful read splits what was heard into skipped bytes without a frame start, the frame, and the bytes kept for the next call; nothing is lost |
| KLine.ReadFrameGivesUp | src/d2diag/kline/kline.py:316-325 | a read fails only when the deadline passes, with all bytes heard so far kept in the buffer and no frame in it |
| KLine.ReadsDelivered | src/d2diag/kline/kline.py:310-325 | reading takes exactly the next delivered frame off the wire and leaves the others deliverable |
| KLine.WholeChunksDeliver | src/d2diag/kline/kline.py:321-323 | frames that arrive on frame boundaries are delivered |
| KLine.AnyChunkingDelivers | src/d2diag/kline/kline.py:321-323 | frames without a frame in any proper prefix are delivered however their bytes are cut into chunks |
| KLine.ReadsWholeFrameIffDelivered | src/d2diag/kline/kline.py:310-325 | a frame arriving in pieces is read whole, with nothing left over, exactly if no pause leaves a part that itself holds a frame |
| KLine.EmbeddedFrameIsReadInstead | src/d2diag/kline/kline.py:321 | a concrete frame cut in two for which the reader returns an inner frame instead |
| KLine.ExchangeSends | src/d2diag/kline/kline.py:231-241 | whatever the bus does, only copies of the one request frame are sent, at most retries + 1, and exactly that many if the exchange fails |
| KLine.ExchangeHears | src/d2diag/kline/kline.py:231-241 | an exchange uses up one answer of the bus per transmission and returns no byte that those answers did not hold |
| KLine.ExchangeReturnsFirstSuccess | src/d2diag/kline/kline.py:230-241 | an exchange returns what the first transmission that works brings, and the last error exactly if none of them does; each is decided by the answer to it alone |
| KLine.KLine.ReadNextFrame | src/d2diag/kline/kline.py:301-325 | the receive loop over the growing buffer takes result, buffer and line to what the read function says |
| KLine.KLine.Request | src/d2diag/kline/kline.py:225-241 | the retry loop flushes, sends, swallows the echo and reads as the exchange function says; an unencodable field changes nothing |
| KLine.BurstIsUpToItsEnd | src/d2diag/kline/kline.py:266-281 | a burst is exactly the bytes up to the first deadline or silence after data; later bytes stay on the line |
| KLine.KLine.ReadBurst | src/d2diag/kline/kline.py:266-281 | the receive loop collects that burst and leaves the rest of the line |
| KLine.KLine.ConverseFrame | src/d2diag/kline/kline.py:260-264 | flush, send once, and return the burst that follows |
| KLine.AnswerIsPastTheEcho | src/d2diag/kline/kline.py:183-203 | a tolerant init returns the burst from the first 0xC1 past the first echo (past the echo's length if a functional echo is damaged), and fails exactly if there is none |
| KLine.EchoIsNoAnswer | src/d2diag/kline/kline.py:183-203 | hearing only one's own init frame is never an answer, even if it begins with 0xC1 |
| KLine.LostPhysicalEcho | src/d2diag/kline/kline.py:194-196 | behind a damaged physical echo any 0xC1 in the burst counts as an answer |
| KLine.PhysicalEchoSafeIff | src/d2diag/kline/kline.py:187-203 | no proper piece of a physical init echo, heard alone, passes for an answer, exactly if neither address is 0xC1 and their sum is not 0xBF modulo 256 |
| KLine.PhysicalEchoMistaken | src/d2diag/kline/kline.py:195 | a physical init frame that contains 0xC1, whose damaged echo passes for an answer |
| KLine.KLine.FastInit | src/d2diag/kline/kline.py:155-203 | the tolerant init sends one addressed StartCommunication and searches the burst as stated above |
| Kwp2000.PendingThenReply | src/d2diag/kwp2000/kwp2000.py:145-152 | within the bound, delivered responsePending frames are waited out one by one, without sending, and the last word is returned |
| Kwp2000.PendingTooLong | src/d2diag/kwp2000/kwp2000.py:148-149 | one responsePending more than the bound raises, whatever comes after it |
| Kwp2000.PendingThenSilence | src/d2diag/kwp2000/kwp2000.py:145-152 | if nothing readable follows the delivered responsePending frames, the wait ends in a timeout |
| Kwp2000.StrictStackGivesUp | src/d2diag/kwp2000/kwp2000.py:94-95 | full strict stack: more than max_pending responsePending frames raise, and one frame was sent |
| Kwp2000.StrictStackVerdict | src/d2diag/kwp2000/kwp2000.py:93-105 | full strict stack, any last word within the bound: a rejection is reported with its code, a foreign SID as such, a positive reply returned without its SID; one frame was sent |
| Kwp2000.OversizedIsNotSent | src/d2diag/kwp2000/kwp2000.py:82-95 | a payload that does not fit a frame is refused, and nothing is sent |
| Kwp2000.StrictStackAnswers | src/d2diag/kwp2000/kwp2000.py:82-105 | full strict stack: on a line delivering echo, k responsePending frames and a positive reply exactly one frame is sent, and the reply's data after its SID is returned exactly if k is within the bound and the positive SID is not 0x7F |
| Kwp2000.NegativeSidNeverSucceeds | src/d2diag/kwp2000/kwp2000.py:98-104 | only services 0x3F and 0x7F have the positive SID 0x7F, and no bus can make a request for them succeed |
| Kwp2000.SearchPrefersPair | src/d2diag/kwp2000/kwp2000.py:132-137 | the search finds the first pair of SID and echoed byte if there is one, else the first SID, and fails exactly if the SID is not there |
| Kwp2000.StrictNeedsPositive | src/d2diag/kwp2000/kwp2000.py:93-105 | a strict request fails, after at most retries + 1 transmissions, if no answer to any of them holds the positive SID anywhere |
| Kwp2000.Kwp2000.Extract | src/d2diag/kwp2000/kwp2000.py:123-143 | the tolerant search, step by step, is the extraction function |
| Kwp2000.Kwp2000.WaitOutPending | src/d2diag/kwp2000/kwp2000.py:145-152 | the pending loop is the bounded resolution function, on result and wire |
| Kwp2000.Kwp2000.Call | src/d2diag/kwp2000/kwp2000.py:82-105 | a service request, strict or tolerant, takes result, buffer, line and log where the request function says |
| Firmware.ChecksumOf | esp32/kline_node/kline_core.h:45-47 | the C checksum loop agrees with the Python checksum on every prefix of a buffer |
| Firmware.FindSeq | esp32/kline_node/kline_core.h:75-78 | the C two-byte search agrees with the byte-string search, with every index in range |
| Firmware.FindByte | esp32/kline_node/kline_core.h:79-82 | the C one-byte search agrees with the byte-string search |
| Firmware.ReadBurst | esp32/kline_node/kline_core.h:62-74 | the buffer holds the first 96 bytes (its capacity) of the burst the Python reader would collect |
| Firmware.BuildRequest | esp32/kline_node/kline_core.h:172-176 | the request buffer holds length, SID, payload and checksum, without overrunning its 16 bytes |
| Firmware.CopyField | esp32/kline_node/kline_core.h:189-195 | what is copied is bounded by the length byte, the burst and the caller's buffer, and nothing else of that buffer changes |
| Firmware.KwpRequest | esp32/kline_node/kline_core.h:170-198 | the whole reader: the frame sent, the returned length, and the exact contents of the caller's buffer, with every index in range |
| Readers.FirmwareSendsTheSameFrame | esp32/kline_node/kline_core.h:172-176 | firmware and Python put the same unaddressed frame on the bus, up to 62 payload bytes |
| Readers.TolerantAcceptsIff | src/d2diag/kwp2000/kwp2000.py:96-143 | the tolerant reader accepts a burst exactly if it finds the positive SID, other than 0x7F, and no rejection in front of it; what it returns or reports in either case |
| Readers.FirmwareAnswersPrefixOfTolerant | esp32/kline_node/kline_core.h:184-197 | on a burst it holds, the firmware answers exactly if the tolerant reader does and the SID is not the first byte, and its answer is the prefix of the tolerant one that the length byte, the burst and the buffer allow; for services 0x3F and 0x7F when it answers although the tolerant reader never does |
| Readers.FirmwareAnswersPrefixIff | esp32/kline_node/kline_core.h:181-197 | on a burst of any length its answer is a prefix of the tolerant one exactly if the SID is not 0x7F and either the first 96 bytes hold the SID with its echoed identifier (or the burst does not), or the answer is empty and no rejection comes before the SID |
| Readers.LateReplyIsMisread | esp32/kline_node/kline_core.h:181-187 | a burst longer than the buffer on which the two readers give different answers |
| Readers.TolerantReadsReply | src/d2diag/kwp2000/kwp2000.py:123-143 | behind an innocent echo the tolerant reader returns the reply's data and exactly one trailing checksum byte |
| Readers.TolerantReadsReplyIffEchoInnocent | src/d2diag/kwp2000/kwp2000.py:123-143 | it does so exactly if no SID-identifier pair and no 7F-service pair begins inside the echo |
| Readers.CleanEchoIsInnocent | src/d2diag/kwp2000/kwp2000.py:130 | an echo free of the positive SID and of 0x7F is innocent |
| Readers.TolerantReadsUnechoedReplyIff | src/d2diag/kwp2000/kwp2000.py:134-140 | a reply of any length that need not echo an identifier, behind an echo free of both SIDs, is returned with one checksum byte exactly if the preferred pair does not occur later in it |
| Readers.TolerantReadsBareReply | src/d2diag/kwp2000/kwp2000.py:136-137 | a reply of the SID alone always is: what is returned is its checksum |
| Readers.FirmwareReadsReply | esp32/kline_node/kline_core.h:184-197 | behind an innocent echo the firmware returns the reply's data exactly, without checksum |
| Readers.StrictReadsReply | src/d2diag/kwp2000/kwp2000.py:93-105 | on any line that delivers echo, k responsePending frames and an undamaged reply, the strict stack returns its data exactly if k is within the bound |
| Readers.ThreeReadersAgree | src/d2diag/kwp2000/kwp2000.py:82-143 | one undamaged reply, however the line is cut into chunks, read three ways: strict returns the data, tolerant the data and one checksum byte, firmware the data |
| Readers.RejectionIsFinal | src/d2diag/kwp2000/kwp2000.py:138-142 | behind an echo free of both SIDs the first rejection decides, whatever follows it: the tolerant reader reports its code, the firmware no answer |
| Readers.PendingTakenAsFinal | src/d2diag/kwp2000/kwp2000.py:138-142 | so a responsePending is the last word for both, whatever follows it |
| Readers.OnlyStrictWaits | src/d2diag/kwp2000/kwp2000.py:87-105 | after k responsePending frames and the reply, strict succeeds exactly if k is within its bound, tolerant and firmware exactly if k is 0 |
| Readers.EchoAloneAnswersIff | src/d2diag/kwp2000/kwp2000.py:123-143 | an echo heard alone is taken for an answer exactly if it holds the positive SID, other than 0x7F, and no rejection begins in front of the place found |
| Readers.RequestAnswersItselfIff | src/d2diag/kwp2000/kwp2000.py:130 | the same on the request: its service, its payload or its checksum is the positive SID; without 0x7F in the payload that is the whole condition |
| Readers.EchoMistakenForAnswer | src/d2diag/kwp2000/kwp2000.py:136-140 | a request whose checksum is its own positive SID, and which holds it and 0x7F nowhere else, is answered by its own echo with an empty reply |
| Readers.ReadOf3EIsMistaken | src/d2diag/kwp2000/kwp2000.py:130 | `21 3E` is such a request |
| Session.FirstSuccessIsFirst | src/d2diag/session.py:173-205 | the attempt an establishment returns at is the first that succeeds, unlocking included |
| Session.FirstAnsweredIsFirst | src/d2diag/session.py:173-192 | without a follow-up, it is the first one the bus answers |
| Session.EstablishTrace | src/d2diag/session.py:131-208 | with or without the unlocking step, for every pattern of answers: exactly one StopCommunication, first of all, then the idle silence; inits in variant order, one full quiet period without traffic after each attempt that fails; it returns at the first attempt that succeeds and fails exactly if none of `attempts` does |
| Session.EstablishTraceWithoutFollowUp | src/d2diag/session.py:173-196 | for a module without a follow-up (SLABS) the whole trace and result in closed form from the answers of the bus |
| Session.SleepIsFullLength | src/d2diag/web/server.py:464-482 | a sleep in slices that no command disturbs lasts as many slices as its length needs |
| Session.EchoOnlyBusNeverEstablishes | src/d2diag/session.py:173-208 | if everything that is sent is answered by its echo only, establishment fails after exactly `attempts` inits, for every target, source and variant list, strict or tolerant, with or without the unlocking step; on a link with addresses, if the echo of `10 A0` does not hold 0x50 |
| Session.AtMostOneInitAfterCommand | src/d2diag/web/server.py:464-482 | with commands arriving at any point, at most one more init is sent before the establishment ends; unless it succeeds, it ends aborted exactly if a command waits, and failed exactly if none does |
| Unlocking.UnlockByHeard | src/d2diag/td5/td5.py:55-73 | unlocking on a tolerant link from the three bursts: it stops and fails at the first request that is not answered positively, sends the key computed from the seed heard, and succeeds exactly if all three are answered, the second with a seed of two bytes or more |
| Unlocking.UnlockedMeansKeySent | src/d2diag/td5/td5.py:59-73 | on any link, commands arriving or not, success means that session, seed request and the key for a seed that was read went out |
| Unlocking.UnlockAnswersSeedWithKey | src/d2diag/td5/td5.py:55-73 | on undamaged replies the key is computed from exactly the seed heard, and unlocking succeeds exactly if the key is neither `7F 27` nor `7B 7F` |
| Unlocking.UnansweredUnlockFails | src/d2diag/td5/td5.py:59-73 | if the session or seed request hears silence, its echo, or its echo and a rejection, unlocking fails there and sends nothing further; so it does at the key, exactly unless the key's frame holds 0x67 |
| Unlocking.KeyAcceptedIffHeld | src/d2diag/kwp2000/kwp2000.py:123-143 | a key heard alone or with a rejection behind it passes for accepted exactly if its own frame holds 0x67 |
| Unlocking.AttemptByHeard | src/d2diag/session.py:177-205 | an attempt with an unlocking step succeeds exactly if the unlocking does, whether or not the init was answered, and returns the init's answer, or nothing |
| Unlocking.VariantsTakeTurns | src/d2diag/session.py:174 | attempt m of every round uses variant m of the list, with its addressing and its own source, or the link's |
| Session.ReleaseTrace | src/d2diag/session.py:87-128 | whatever the bus does and whatever arrives meanwhile: StopDiagnosticSession if there is a session (once on a tolerant link, at most three times on a strict one), one StopCommunication, and last of all the port is closed |
| Session.EcuSession.ConnectSleep | src/d2diag/web/server.py:473-482 | the slice loop gives up as soon as a command is queued, as the sleep function says |
| Session.EcuSession.UnlockSession | src/d2diag/td5/td5.py:55-73 | the follow-up's steps and early exits are the connect function, on bus, queue and log |
| Session.EcuSession.EstablishSession | src/d2diag/session.py:164-208 | the establishment loop with its early exits ends and leaves bus, queue and log as the establish function says |
| Session.EcuSession.ReleasePort | src/d2diag/session.py:97-128 | the teardown leaves bus, queue and log as the release function says |
| BusTrace.NeverConflicted | src/d2diag/web/server.py:392-394 | a trace without conflict at its end never had one: at every moment at most one session was open |
| BusTrace.ReleasedBeforeNext | src/d2diag/faultscan.py:65-112 | in such a trace the first of any two sessions is released before the second opens |
| FaultScan.ReadModule | src/d2diag/faultscan.py:67-78 | the codes a module answers are its row; it is opened, read and released, also if establishing or reading fails; a port that does not open is not released |
| FaultScan.LiveReport | src/d2diag/faultscan.py:53-114 | one row per module in order; each module's turn is over before the next begins, and the bus is free at the end |
| FaultScan.TurnsInOrder | src/d2diag/faultscan.py:65-112 | the modules take their turns on the bus in the order of the list, one whole turn after the other |
| FaultScan.ReadAll | src/d2diag/faultscan.py:33-39 | the exact report, live or demonstration, with the modules without a reader listed last |
| Poller.DataSource.Poll | src/d2diag/web/sources.py:387-428 | after a poll the handle exists exactly if a session was there or established and survived the reads; the exact opening and release on the bus |
| Poller.DataSource.Disconnect | src/d2diag/web/sources.py:372-381 | the handle is gone whatever happens, and a session that was open is released once |
| Poller.DiagServer.constructor | src/d2diag/web/server.py:395-422 | an unknown module or mode falls back to the first; the shown module and mode agree; nothing is held |
| Poller.DiagServer.OneSessionAtATime | src/d2diag/web/server.py:622-672 | in every reachable state, over the whole trace: between any two sessions, of sources or of a scan, lies the release of the first |
| Poller.DiagServer.Enqueue | src/d2diag/web/server.py:589-593 | a queued command is behind all earlier ones, and stays even if its caller stops waiting |
| Poller.DiagServer.Select | src/d2diag/web/server.py:622-638 | an unknown module changes nothing; another module releases the old session, leaves the bus free and is shown as connecting; the same module is undisturbed |
| Poller.DiagServer.ChangeMode | src/d2diag/web/server.py:640-657 | likewise for the mode; afterwards every module is its first variant for that mode, or its first variant if it has none for it |
| Poller.DiagServer.ModulesFollowMode | src/d2diag/web/server.py:398-400 | in every reachable state that holds for the mode that is shown, for every module and for the active source |
| Poller.DiagServer.ScanFaults | src/d2diag/web/server.py:659-672 | the active session is released first, then the modules are scanned in turn; nobody holds the bus afterwards, and the exact report is returned |
| Poller.DiagServer.Execute | src/d2diag/web/server.py:703-719 | each command's answer from the module and mode it meets, and what it does to both; a command for a source is answered by the active one and leaves its session alone |
| Poller.DiagServer.ExecuteNext | src/d2diag/web/server.py:698-719 | the oldest command is taken off the queue, executed and answered |
| Poller.DiagServer.DrainCommands | src/d2diag/web/server.py:697-719 | while more commands arrive, each is executed exactly once in order of arrival, until none is left |
| Poller.DiagServer.ShowProgress | src/d2diag/web/server.py:505-525 | progress of an establishment is shown under the active module and mode |
| Poller.DiagServer.PollOnce | src/d2diag/web/server.py:750-770 | a round executes what was queued before it polls, and then shows the polled source's status under the active module and mode |
| Poller.DiagServer.Run | src/d2diag/web/server.py:750-785 | over any number of rounds, any luck and any commands: only the active module's source in the current mode can hold a session, no bus conflict, what is shown names that module and mode, and no command is lost or reordered |
| SlabsSource.WindowTrafficIsBounded | src/d2diag/web/sources.py:588-596 | in any window of T seconds polls send at most 3(floor T + 1) + 2(floor(T/30) + 1) requests |
| SlabsSource.PollRequests | src/d2diag/web/sources.py:673-717 | every bus poll sends the bare keepalive and the heights first, then the extra identifier it logs and the fault blocks it logs, and nothing else |
| SlabsSource.PollsAreSpaced | src/d2diag/web/sources.py:665-672 | any two bus polls of a run are at least one second apart, also across reconnects |
| SlabsSource.RotationCoversOnce | src/d2diag/web/sources.py:687-691 | any n consecutive bus polls of a session with n extra identifiers read each of them exactly once |
| SlabsSource.LostExactlyAfterThreeSilent | src/d2diag/web/sources.py:696-707 | a session is given up for lost contact exactly after three consecutive polls without a height |
| SlabsSource.SlabsDataSource.BusPoll | src/d2diag/web/sources.py:672-720 | one bus poll appends exactly its requests and, if it ends the session, the reason, and keeps the log in order; if enabled, a poll that decodes reads fault codes whenever the last reading is 30 s past |
| SlabsSource.SlabsDataSource.PollOnce | src/d2diag/web/sources.py:660-729 | a call connects only without a session, sends nothing within a second of the last bus poll, and otherwise, if there is a session, polls once; every run of calls keeps the log in order |
| SlabsSource.SlabsDataSource.Disconnect | src/d2diag/web/sources.py:650-658 | the handle is gone and the rest of the state undisturbed |
| Fuel.AverageWithin | src/d2diag/web/sources.py:142-145 | if every integrated stretch was driven, the average economy lies between the smallest and the largest momentary one |
| Fuel.RateIsInjectedMass | src/d2diag/web/sources.py:124-126 | the rate weighs what the injectors pass in an hour, and there is one exactly if both values are read and the engine turns |
| Fuel.FuelComputer.LifetimeIsStartAndSteps | src/d2diag/web/sources.py:144-145 | the lifetime average is taken over the stored totals and all stretches since, once they exceed a kilometre |
| Fuel.FuelComputer.TripAverageWithin | src/d2diag/web/sources.py:142-143 | so does the trip average that is shown |
| Fuel.FuelComputer.Update | src/d2diag/web/sources.py:121-149 | exactly the time since the last update counts, capped at three seconds, never across a pause or at a standing engine; trip and lifetime grow by the same fuel and distance, integrated time never exceeds elapsed time; the economy is shown only above 5 km/h |
| Fuel.FuelComputer.Pause | src/d2diag/web/sources.py:117-119 | the clock is forgotten, the totals are kept |
| Outbox.FatesAddUp | src/d2diag/community/__init__.py:157-177 | every payload that left the queue was either delivered or evicted as the oldest |
| Outbox.Community.QueueIsConserved | src/d2diag/community/__init__.py:157-177 | payloads ever queued = delivered + evicted + waiting, in every state, in the middle of an operation too |
| Outbox.Community.Save | src/d2diag/community/__init__.py:86-89 | saving makes file and memory agree; a write that raises leaves the file and the process as they were; dying first falls back to the file |
| Outbox.Community.Restart | src/d2diag/community/__init__.py:80-84 | after a restart at any point, also after failed writes, nothing that was saved is missing: it is delivered, evicted or waiting; what left the queue unsaved waits again |
| Outbox.Community.Enqueue | src/d2diag/community/__init__.py:157-163 | the payload joins the end of the queue and the oldest is evicted exactly if 200 were waiting; saved, or in memory only if the write raises |
| Outbox.Community.FlushOne | src/d2diag/community/__init__.py:170-173 | the oldest payload is posted, and leaves the outbox exactly if it is accepted |
| Outbox.Community.Flush | src/d2diag/community/__init__.py:165-177 | the exact posts: payloads from the front, in queue order, all accepted, then the first one refused, if any is left |
| Outbox.Community.Contribute | src/d2diag/community/__init__.py:135-154 | without consent nothing is posted or queued; a refused reading is reported queued only once it is saved; after an accepted one the queue is flushed to the end or to the first refusal; what holds if a write raises or the process dies |
| Outbox.Community.RegisterInstall | src/d2diag/community/__init__.py:126-133 | one registration is posted, and recorded and saved exactly if it is accepted |
| Outbox.Community.SetConsent | src/d2diag/community/__init__.py:112-124 | opting out posts nothing and keeps the queue; opting in registers first and, only if that is accepted, flushes the queue to the end or to the first refusal |
| SignalStore.UpsertChangesOnlyItsKey | src/d2diag/signals/__init__.py:148-155 | an upsert replaces the first record with its key in place, or appends; every other record stays where it is |
| SignalStore.UpsertKeepsKeysUnique | src/d2diag/signals/__init__.py:145-155 | keys (number of the identifier, offset, name) stay unique, and exactly the record with the key is replaced |
| SignalStore.CanonicalReadsBack | src/d2diag/signals/__init__.py:142-143 | the canonical spelling of an identifier is two or more upper-case hexadecimal digits that read back as its number, so comparing spellings is comparing numbers |
| SignalStore.DecodeKeepsAll | src/d2diag/signals/__init__.py:90-109 | a decoded record keeps everything but the spelling of its identifier |
| SignalStore.RemovalKeepsOrder | src/d2diag/signals/__init__.py:184-186 | a removal keeps the remaining records in their order |
| SignalStore.RemovalDropsExactlyMatches | src/d2diag/signals/__init__.py:179-186 | it drops exactly the records at the identifier and offset: all of them, or, if a bit is given, the bit fields with that index |
| SignalStore.RemovalKeepsKeysUnique | src/d2diag/signals/__init__.py:184-186 | it keeps keys unique |
| SignalStore.Store.LoadSignals | src/d2diag/signals/__init__.py:127-133 | what a reader sees, cached or not, is the decoded file |
| SignalStore.Store.UpsertField | src/d2diag/signals/__init__.py:136-166 | the file becomes the upserted one and the cache still agrees with it, or, if writing fails, nothing changes |
| SignalStore.Store.RemoveField | src/d2diag/signals/__init__.py:169-199 | the file becomes the filtered one, the number of removed records is returned, and the cache still agrees with it |
| SignalStore.Store.Label | tools/map_gui.py:277-289 | after a successful labelling the file holds exactly one record for the bit, with the new name, or none for an empty one; if the first write fails nothing changes, if the second fails the bit is left without a name |
| SignalStore.LabellingStoresName | tools/map_gui.py:277-289 | what a labelling leaves: that record, and every other record, those of the byte's other bits too, unless the new name takes its key |
| SignalStore.LabellingKeepsOneToOne | tools/map_gui.py:277-289 | labelling keeps bit and name one to one in every byte and leaves other bytes alone |
| SignalStore.UpsertAloneKeepsOneToOneIff | tools/map_inputs.py:182-188 | storing a name without clearing the bit keeps them one to one exactly if the bit has no other name |
| Splitter.SplitFrames | src/d2diag/sniff/capture.py:51-66 | the checked splitting loop computes frames and consumed index of the split function |
| Splitter.Frames | src/d2diag/sniff/decoder.py:41-53 | the unchecked splitting loop computes the unchecked split function |
| Splitter.SplitsWhatIsWoven | src/d2diag/sniff/capture.py:51-66 | any weaving of frames and runs of zeros is split back into exactly those frames, to the last byte |
| Splitter.SplitOfLaid | src/d2diag/sniff/decoder.py:41-53 | with or without checksums, any frames with zeros around them are split off, up to the first place where a frame is cut short or, with checksums, broken |
| Splitter.SplitIsLaid | src/d2diag/sniff/capture.py:51-66 | conversely every byte list is of this kind: what is split off are disjoint frames (checksum-valid if checked) with only zeros between, and nothing more can be |
| Splitter.CheckedIsPrefixOfUnchecked | src/d2diag/sniff/decoder.py:41-53 | the checked frames are a prefix of the unchecked ones |
| Splitter.EncodedIsRaw | src/d2diag/kline/frame.py:64-71 | an unaddressed encoded frame is a raw frame, behind the zero of the long header if the payload is over 63 bytes |
| Splitter.SplitRecoversPayloads | src/d2diag/sniff/capture.py:51-66 | splitting encoded frames of 1-255 bytes with arbitrary zeros between them recovers exactly the payloads and consumes everything |
| SearchState.CountsMatchIffInjective | src/d2diag/sniff/automap.py:149 | a dictionary has as many distinct values as keys exactly if no two keys share one |
| SearchState.Consistent | src/d2diag/sniff/automap.py:144-149 | true exactly if equal states have equal values and equal values equal states |
| SearchState.SeparatesIff | src/d2diag/sniff/automap.py:159-169 | a byte or bit separates exactly if readings show the same state exactly when they have the same byte, or bit, there |
| SearchState.MappingOf | src/d2diag/sniff/automap.py:161-170 | the mapping of a separating field lists every state with its value, nothing else, and no value twice |
| SearchState.BitSeparatesTwoStates | src/d2diag/sniff/automap.py:158-165 | a bit separates at most two states |
| SearchState.SearchByte | src/d2diag/sniff/automap.py:157-174 | one offset: eight bits and the whole byte are accounted for, although the byte is skipped after a hit here |
| SearchState.SearchLid | src/d2diag/sniff/automap.py:152-174 | one identifier: every separating field of it is accounted for; an identifier missing from a reading has none |
| SearchState.Search | src/d2diag/sniff/automap.py:138-181 | the search with its early skip returns the separating bit with the lowest offset, then the lowest bit, then the earliest identifier; a byte, by offset and identifier, only if no bit separates; nothing exactly if there are not two states or nothing separates them |
| SearchState.BitsRankBeforeBytes | src/d2diag/sniff/automap.py:163-172 | the ranking is a strict total order (total, asymmetric, transitive) in which every bit precedes every byte, so a byte is returned only if no bit separates |
| Calibration.NoneIffTooFewRawValues | src/d2diag/sniff/calib.py:14-18 | no fit exactly if there are fewer than two distinct raw values |
| Calibration.ErrorsAboveFit | src/d2diag/sniff/calib.py:19-25 | any line's squared errors are the fit's plus a square for its slope and a square for its offset |
| Calibration.FitMinimisesErrors | src/d2diag/sniff/calib.py:19-25 | the fit minimises the sum of squared errors over all lines, and is the only line that does |
| Calibration.FitRecoversLineIff | src/d2diag/sniff/calib.py:23-28 | samples on a line give back its scale and bias; r2 is 1 exactly if the samples lie on the fitted line |
| Calibration.QualityInUnitInterval | src/d2diag/sniff/calib.py:25-27 | 0 <= r2 <= 1 |
| Calibration.QualityIsExplainedShare | src/d2diag/sniff/calib.py:25-28 | r2 is one minus the fit's errors over those of the flat line at the mean; it is 0 exactly if the fit is flat although the displayed values differ; if they do not, the fit is flat and r2 is 1; n is the number of samples |
| Calibration.MeanIsBestFlatLine | src/d2diag/sniff/calib.py:20-26 | that flat line has the least errors of all flat lines |
| InputWatch.BaselineIsEverySample | tools/map_inputs.py:46-69 | the baseline value of an unmasked bit is that bit's value in every baseline sample |
| InputWatch.BitsOfReading | tools/map_inputs.py:36-43 | a reading is taken apart without loss: eight bits for every byte, which make it up, and no other bits |
| InputWatch.WatchedIff | tools/map_inputs.py:46-69 | a bit is watched exactly if every baseline sample has it and it never changes |
| InputWatch.StableIff | tools/map_inputs.py:57-69 | debounced are exactly the unmasked bits that every frame of the window has |
| InputWatch.MajorityIsMoreThanHalf | tools/map_inputs.py:67-68 | the debounced value is 1 exactly if the bit is set in more than half of the frames; a tie is 0 |
| InputWatch.MajorityOfThree | tools/map_inputs.py:57-69 | the debounced value over three frames is shown by two of them |
| InputWatch.StableJustifies | tools/map_inputs.py:57-76 | a debounced bit is unmasked, present in every frame of the window, and with three frames backed by two |
| InputWatch.EventsAlternate | tools/map_inputs.py:158-163 | successive events of one bit strictly alternate |
| InputWatch.Watcher.constructor | tools/map_inputs.py:146-153 | what moves by itself is masked, the rest are resting levels, and no event has happened |
| InputWatch.Watcher.Observe | tools/map_inputs.py:154-163 | each poll emits justified events only, replaying all events over the baseline gives the current levels, and every watched bit ends at its debounced value |
| InputWatch.Watcher.Emit | tools/map_inputs.py:158-163 | one event flips its bit from the level it was left at |
| Faults.EachSetBitOnce | src/d2diag/td5/faults.py:248-267 | for any table of distinct bits and any block, each set bit is reported exactly once and nothing else is |
| Faults.LengthIsSetBits | src/d2diag/td5/faults.py:248-267 | so the list is as long as the block has set bits |
| Faults.KnownInTableOrder | src/d2diag/td5/faults.py:258-261 | named bits come first, in table order and under their names |
| Faults.UnknownAscending | src/d2diag/td5/faults.py:262-266 | the other set bits follow in the order of offset and bit, each under its generic text |
| Faults.GenericReadsBack | src/d2diag/td5/faults.py:266 | the text of an unknown bit reads back as its offset and bit |
| Faults.DecodeFaults | src/d2diag/td5/faults.py:248-267 | the mask-accumulating loops list the names of set known bits in table order, then the unknown bits by position, over the first 35 bytes |
| Faults.MapListsTable | tools/gen_faultmap.py:22-25 | the generated map lists the table's rows in table order, each single-bit mask as its bit index |
| Faults.BrowserDecode | esp32/kline_node/live_html.h:83-91 | the browser's loops over the map list the same function of map and block |
| Faults.DecodersAgree | esp32/kline_node/live_html.h:83-91 | decoding through the generated map gives the same texts in the same order as the Python table, for every block |

## Left out

- Serial ports, sockets, SSE, HTTP handlers, SQLite, CSV and JSONL files, port discovery: I/O outside the modelled files.
- Real time: a deadline is a receive result of its own, a sleep an event with its length. `_precise_wait`, the init pulse, the gap between written bytes (`write_gap`, one frame is one transmission here) and transports without `reset_input_buffer` are not modelled.
- `KLine.fast_init` (strict) and `slow_init`: the establishment uses the tolerant init only.
- `Slabs._confirm_session`, the best-effort `1A 8A` after an establishment. It sends no further init, but its delay is the server's interruptible sleep: a command queued by then discards the session after the init was answered. The establishment modelled here ends before it.
- The server being stopped during a quiet period (`_stop.is_set()` ends the sleep early): the claims are for a running server.
- The raw port after an aborted establishment: `_connect` does not clean up, so nothing is claimed about it. A session here is the source's own handle.
- Opening the port is assumed to be all or nothing, and closing it not to raise.
- The seed-to-key function is a parameter; its table and the actuator frames are finite domains.
- `read_local`, `read_block`, the decoding of signals and the values shown in snapshots: reads only survive or fail here, and commands for a source are answered by naming it.
- Inline commands, the connection log, the fault-watch cadence and races inside single assignments between threads: a poller step is atomic.
- Poller.DiagServer.constructor: the order of the module dictionary is a parameter (`first`), because maps have no order here.
- Firmware.BuildRequest: requires the request to fit its 16 bytes, which the C code does not check; its callers pass at most three payload bytes.
- Firmware.KwpRequest: requires the same, for the same reason.
- Session.EchoOnlyBusNeverEstablishes: says nothing of an unlocking step on a link with addresses where the echo of `10 A0` holds 0x50, its own answer; the Td5 link has no addresses.
- Outbox: the install id, the whitelist of payload fields, a damaged file, and the atomicity of the real `write_text`; a save happens completely or not at all, whether or not it raises.
- SignalStore: the fields of a record that no operation looks at are one opaque value, and so is the default confidence an upsert fills in.
- SignalStore: identifiers are compared as numbers; the cached list is a value, so a caller changing it in place is not modelled, nor is another process editing the files.
- SearchState.Search: the rule text of the result; the mapping is `MappingOf` of the field found.
- `search_numeric`, `_fit` and their snapping tolerances, `block_diff`, `stable_diff`, `LidStore`, `classify_frame`: heuristics and easy members.
- Fuel.FuelComputer.Update: rounding of shown values and the periodic saving of lifetime totals.
- SlabsSource: the list of extra identifiers of a session is a parameter (a fixed set joined with the store's), as are the values decoded.
- FaultScan: the codes come as read; the filter of unnamed Td5 bits and the suffixes of the SLABS codes are not modelled.
- InputWatch: the text and order of events within one poll, and the labelling prompt after the loop.
- Faults.BrowserDecode: parsing of the "offset.bit" keys and of the hexadecimal block, and the fallback without a map. The SLABS table is not modelled.
- Calibration: floating-point rounding; the fit is over the reals.
