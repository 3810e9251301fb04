# Verified models of the windrunner-wow core algorithms

Dafny models of the parts of the server and of its bundled Discord library whose correctness is not
visible from one function: wire codecs, a multi-threaded request queue, a calendar-driven event
scheduler, resumable protocol decoders, a jitter buffer and a few limiters. Each model follows the
branches, constants and integer widths of the C++ code; the theorems speak about all inputs or all
runs. `dafny verify dfyconfig.toml` checks the project.

| files | what they model |
|---|---|
| `Bytes.dfy` | bytes, fixed-width integers, big and little endian fields |
| `EtfTerm.dfy`, `EtfCodec.dfy`, `EtfRoundTrip.dfy`, `EtfTheorems.dfy` | the Erlang External Term Format codec: what is written, the cursor-based parser and growing buffer, and exactly which values survive a round trip |
| `EtfGrammar.dfy`, `EtfGrammarTheorems.dfy` | the term format as a grammar in literal bytes with a meaning of its own; the parser decides it |
| `RequestQueue.dfy`, `RequestQueueProofs.dfy` | posting threads, worker threads and the callback thread as interleaved atomic steps |
| `GameEventTime.dfy`, `GameEvents.dfy`, `GameEventProofs.dfy` | event calendar arithmetic, the event manager class, scheduler and spawn theorems |
| `WebSocket.dfy` | frame header writer and incremental frame reader (section 5.2 of RFC 6455) |
| `HttpChunks.dfy`, `HttpChunkProofs.dfy` | resumable chunked body decoder (section 7.1 of RFC 9112) |
| `Voice.dfy` | wrap-around order of RTP payloads and the concealing flush loop |
| `Conditions.dfy` | recursive AND/OR/NOT conditions with reverse and swap flags |
| `AccountLimits.dfy` | instances per hour and first-contact mails |
| `Permissions.dfy` | guild and channel permission resolution |
| `Utf8.dfy` | counting and cutting UTF-8 text by characters |

Findings, each stated as a lemma:

- An empty array is printed as two terms. `Residue` follows the surplus terms and decides exactly
  which values come back; `[[]]` does not, `[[],[]]` does (`RoundTripExactly`, `EmptyArrayExamples`).
- The voice comparison is right on windows of up to 5001 numbers, one more than its comment claims,
  and on no larger size (`WindowIsExact`).
- `utf8substr` returns too much for every slice that starts after the first character and stops before
  the last (`CutExactly`, `CutInTheMiddle`).
- A last WebSocket frame of fewer than two payload bytes is held back until more data arrives
  (`StreamDelivered`, `EmptyPingWaits`).
- The scheduler reads the clock once to start and stop events and again for each event to plan the
  next poll; an event is right until then exactly when it did not turn between its two readings
  (`ActiveUntilDelay`, `ScheduleExactly`), and such a turn happens (`TurnBetweenReadings`).
- Stopping an event by hand moves its start back by one length, but leap days still shift it: the next
  update starts an event with leap days again (`StopHolds`, `StopUndone`).
- The loader checks of NOT conditions leave their optional references unchecked although evaluation
  follows them, and a row that refers to itself is accepted and never returns
  (`SelfReferencePasses`). Evaluation returns for every oracle where no path of references is longer
  than the table (`GroundedReturns`), for none where the references followed first run in a circle
  (`NeverReturns`); in between the leaves decide (`OracleDecides`), and for given leaves and arguments
  it returns if and only if twice as many nested calls as rows suffice (`ReturnsExactly`).
- The drain loop of the WebSocket reader ends if and only if no frame comes up that it leaves in
  place, which are masked ones and one length that wraps round (`LoopEnds`).
- The array that callers pass to `fill_header` has room for its header exactly up to 65535 payload
  bytes (`HeaderRoom`).

Types: an exception or error return is `Fail`, `None` or a false `ok`; clocks are parameters; a
`char` is a byte, signed where the code compares it; 32- and 64-bit wrap-around is written out.

## Model

| member | source | states |
|---|---|---|
| `EtfCodec.EtfBuffer.Write` | dep/dpp/etf.cpp:46-55 | whatever the allocation, the buffer's used part is the old one followed by the bytes |
| `EtfCodec.FillMagnitude` | dep/dpp/etf.cpp:93-98 | the digit loop writes the shortest little-endian form and stays inside its 11-byte array |
| `EtfCodec.AppendMagnitude` | dep/dpp/etf.cpp:89-103 | appends exactly the big-integer term of the number |
| `EtfCodec.AppendLongLong` | dep/dpp/etf.cpp:105-118 | appends the sign-and-magnitude term |
| `EtfCodec.AppendBinary` | dep/dpp/etf.cpp:167-174 | appends tag, 32-bit length and text |
| `EtfCodec.AppendInteger` | dep/dpp/etf.cpp:642-656 | the three integer forms by size, the middle one wrapped to 32 bits |
| `EtfCodec.InnerBuild` | dep/dpp/etf.cpp:640-710 | appends the print of the value, and gives up exactly when some list or map is longer than 2^32-2 |
| `EtfCodec.BuildArray` | dep/dpp/etf.cpp:680-695 | the array branch appends the print of the list, or gives up |
| `EtfCodec.BuildObject` | dep/dpp/etf.cpp:697-710 | the object branch appends the print of the map, or gives up |
| `EtfCodec.BuildItems` | dep/dpp/etf.cpp:692-694 | the element loop appends the prints of all elements in order |
| `EtfCodec.BuildFields` | dep/dpp/etf.cpp:705-709 | the field loop appends key and value of all fields in key order |
| `EtfCodec.BuildMessage` | dep/dpp/etf.cpp:712-717 | the built message is the version byte and the print, or the exception |
| `EtfCodec.EtfParser.ReadBits` | dep/dpp/etf.cpp:225-259 | reads a big-endian field or fails without moving, exactly when too few bytes are left |
| `EtfCodec.EtfParser.ReadString` | dep/dpp/etf.cpp:261-269 | returns the next bytes, or null without moving |
| `EtfCodec.EtfParser.DecodeAtom` | dep/dpp/etf.cpp:275-311 | null, nil, true, false or the name; a name cut short is null |
| `EtfCodec.EtfParser.DecodeBinary` | dep/dpp/etf.cpp:449-457 | the string, or null when it runs past the end |
| `EtfCodec.EtfParser.DecodeFloat` | dep/dpp/etf.cpp:367-389 | the scanned number, or null |
| `EtfCodec.EtfParser.DecodeByteList` | dep/dpp/etf.cpp:469-479 | an Erlang string becomes the list of its bytes |
| `EtfCodec.EtfParser.ReadMagnitude` | dep/dpp/etf.cpp:408-414 | the shifting 64-bit sum is the little-endian value, without overflow |
| `EtfCodec.EtfParser.DecodeBigint` | dep/dpp/etf.cpp:401-447 | the decimal text of sign and magnitude, or failure above eight bytes |
| `EtfCodec.EtfParser.DecodeArray` | dep/dpp/etf.cpp:325-331 | as many terms as declared, read one after the other |
| `EtfCodec.EtfParser.DecodeList` | dep/dpp/etf.cpp:333-343 | the list, or null after an improper tail |
| `EtfCodec.EtfParser.DecodeTuple` | dep/dpp/etf.cpp:481-487 | tuples of both sizes become arrays |
| `EtfCodec.EtfParser.DecodeMap` | dep/dpp/etf.cpp:353-365 | the object whose first value for a key wins; null for no entries; failure for a key that is no string or number |
| `EtfCodec.EtfParser.DecodeNode` | dep/dpp/etf.cpp:514-526 | references, and likewise ports and process ids, as labelled objects |
| `EtfCodec.EtfParser.DecodeNewReference` | dep/dpp/etf.cpp:528-542 | a reference with its declared number of identifiers |
| `EtfCodec.EtfParser.DecodeExport` | dep/dpp/etf.cpp:561-567 | module, function and arity |
| `EtfCodec.EtfParser.InnerParse` | dep/dpp/etf.cpp:569-625 | on every byte string it ends, and fails or moves the cursor forward by at least one byte and not past the end; the value is the specified one |
| `EtfCodec.EtfParser.ParseString` | dep/dpp/etf.cpp:627-638 | version byte, one term, anything after it ignored |
| `EtfGrammar.Dispatch` | dep/dpp/etf.cpp:569-625 | which tag byte leads to which reader, and that no other byte leads anywhere |
| `EtfGrammar.Reads` | dep/dpp/etf.cpp:225-625 | every term of the grammar, in front of whatever may follow it, is read for its meaning and to its end, or refused if it means nothing: atoms by name, tuples of both sizes, byte strings, proper and improper lists, maps with number keys, big integers, references, ports, process ids, exports, and terms cut short by the end of the message |
| `EtfGrammarTheorems.Covers` | dep/dpp/etf.cpp:225-625 | whatever the parser accepts starts with a term of the grammar |
| `EtfGrammarTheorems.ParseExactly` | dep/dpp/etf.cpp:225-625 | the parser gives a value for n bytes if and only if they are a term that means it and allows the rest to follow |
| `EtfGrammarTheorems.PrintIsWire` | dep/dpp/etf.cpp:640-710 | byte for byte, the term that a value without empty arrays is written as |
| `EtfGrammarTheorems.EmptyArrayIsTwoTerms` | dep/dpp/etf.cpp:683-695 | an empty array is written as nil and an empty list |
| `EtfGrammarTheorems.MagnitudeWrites` | dep/dpp/etf.cpp:89-103 | the magnitude bytes stand for the number, without a zero at the end |
| `EtfGrammarTheorems.BuildRefuses` | dep/dpp/etf.cpp:683-704 | building gives up if and only if some list or map has more than 4294967294 entries |
| `EtfGrammarTheorems.MessageBytes` | dep/dpp/etf.cpp:627-638 | a message is the byte 131 and a term; another first byte, or none, is refused |
| `EtfJson.EmplaceMeaning` | dep/dpp/etf.cpp:358-360 | inserting keeps the object sorted and keeps what was there; a second value for a key changes nothing |
| `EtfJson.DigitsDenote` | dep/dpp/etf.cpp:418 | the decimal text of a number denotes that number |
| `EtfJson.DecimalDenotes` | dep/dpp/etf.cpp:418-445 | decimal text is a minus sign for negative numbers and plain digits without leading zeros that denote the number |
| `EtfRoundTrip.NoResidue` | dep/dpp/etf.cpp:683-695 | no surplus term is left exactly when the value holds no empty array |
| `EtfRoundTrip.TermLeaves` | dep/dpp/etf.cpp:569-710 | parsing a print, whatever follows, gives the normal form and leaves exactly the residue, or does not give the normal form |
| `EtfRoundTrip.ItemsLeave` | dep/dpp/etf.cpp:325-343 | the same for list elements behind surplus terms |
| `EtfRoundTrip.FieldsLeave` | dep/dpp/etf.cpp:353-365 | the same for map fields; a surplus term in key position fails |
| `EtfRoundTrip.LongLongRoundTrip` | dep/dpp/etf.cpp:105-118 | every signed 64-bit integer comes back as its decimal text |
| `EtfTheorems.ParsedWellFormed` | dep/dpp/etf.cpp:569-625 | every parsed value has sorted unique keys in all objects and no string beyond 32-bit lengths, whatever the input |
| `EtfTheorems.NormaliseKeeps` | dep/dpp/etf.cpp:640-710 | the normal form keeps key order, list shapes and string bounds |
| `EtfTheorems.NormaliseIdempotent` | dep/dpp/etf.cpp:640-710 | normalising twice is normalising once |
| `EtfTheorems.ResidueKept` | dep/dpp/etf.cpp:683-710 | the normal form leaves the same surplus terms as the value |
| `EtfTheorems.RoundTripExactly` | dep/dpp/etf.cpp:627-717 | parse(build(v)) is the normal form of v if and only if no string is over-long and the residue of v is defined |
| `EtfTheorems.SelfDelimiting` | dep/dpp/etf.cpp:569-717 | a term reads back in value and in extent, whatever follows, if and only if it holds no empty array and no over-long string |
| `EtfTheorems.SecondTripIsIdentity` | dep/dpp/etf.cpp:627-717 | a second round trip changes nothing for exactly the values that survive the first |
| `EtfTheorems.BigIntegersKeepTheirValue` | dep/dpp/etf.cpp:649-651 | integers from 2^32-2 up come back as text denoting them |
| `EtfTheorems.EmptyArrayExamples` | dep/dpp/etf.cpp:683-695 | the smallest array that is lost and one that survives |
| `RequestQueue.Hash` | dep/dpp/queues.cpp:401-407 | the loop computes the 32-bit hash of the C string with signed characters |
| `RequestQueue.HashMeans` | dep/dpp/queues.cpp:401-414 | the hash is the polynomial in 31 of the signed characters up to the first NUL, over 17, modulo 2^32, and the route its remainder by the pool size |
| `RequestQueue.EraseLoop` | dep/dpp/queues.cpp:318-334 | restart-on-erase ends and keeps, in order, exactly the requests that are not completed |
| `RequestQueue.EraseFirst` | dep/dpp/queues.cpp:323-331 | one pass removes one completed request or finds none anywhere |
| `RequestQueue.InThread.PostRequest` | dep/dpp/queues.cpp:383-390 | the request goes to the end of its endpoint's list |
| `RequestQueue.InThread.BucketAllows` | dep/dpp/queues.cpp:268-293 | a request may go if its endpoint has no bucket or budget left, or else exactly when more than retry-after, or reset-after where that is 0, has passed |
| `RequestQueue.InThread.StoreReply` | dep/dpp/queues.cpp:295-305 | the bucket becomes the answer and its time |
| `RequestQueue.InThread.Cleanup` | dep/dpp/queues.cpp:318-334 | the worker's lists lose exactly the completed requests |
| `RequestQueue.PostToPool` | dep/dpp/queues.cpp:410-414 | only the worker the endpoint hashes to is touched |
| `RequestQueueProofs.StepKeepsInv` | dep/dpp/queues.cpp:242-390 | every atomic step of every thread keeps the queue invariant |
| `RequestQueueProofs.RunKeepsInv` | dep/dpp/queues.cpp:242-390 | the invariant holds at every point of every run |
| `RequestQueueProofs.PostingOrder` | dep/dpp/queues.cpp:264-316 | per endpoint, callbacks are a prefix of runs ended, those of runs begun, those of posts, in every interleaving |
| `RequestQueueProofs.NothingLost` | dep/dpp/queues.cpp:318-380 | every posted request is run or still queued at its worker; every run is called back, in hand or in the response queue |
| `RequestQueueProofs.NothingTwice` | dep/dpp/queues.cpp:264-380 | no request is begun, run or called back twice |
| `RequestQueueProofs.RateLimitRespected` | dep/dpp/queues.cpp:270-305 | after an answer without budget, the next send to the endpoint is later than its time plus retry-after, or reset-after where that is 0 |
| `RequestQueueProofs.SendsExactlyWhenAllowed` | dep/dpp/queues.cpp:264-293 | in every run the request at the head of a line is sent, and not skipped, if and only if the endpoint was never answered, or its last answer left budget, or the wait it asked for is over |
| `RequestQueueProofs.SkippedGoesNext` | dep/dpp/queues.cpp:264-316 | in every run, from a skip of a limited bucket to the next send to its endpoint, the pending requests keep their order ahead of later posts, and the one sent is the one skipped |
| `RequestQueueProofs.QuiescentMeansAllServed` | dep/dpp/queues.cpp:242-380 | when the queues are empty, the callbacks of each endpoint are its posts, in order |
| `GameEventTime.OnExactly` | src/game/GameEventMgr.cpp:40-45 | an event is on between start and end in its occurrences, the first at the start moved by its leap days and one every period, in literal seconds; before the moved start as the C++ remainder has it |
| `GameEventTime.NextCheckNeverSkips` | src/game/GameEventMgr.cpp:40-71 | until the announced delay has passed the event keeps its state, leap days and 32-bit wrap-around included |
| `GameEventTime.NextCheckIsTight` | src/game/GameEventMgr.cpp:40-71 | the state flips at the announced time if and only if the window is shorter than the period and the leap-day shift less than a period |
| `GameEventTime.NextCheckElsewhere` | src/game/GameEventMgr.cpp:47-71 | a day after the end, at the start before it, and never past the end |
| `GameEvents.GameEventMgr.TouchedGuids` | src/game/GameEventMgr.cpp:737-759 | the guids of a list with data, less pooled ones under a negative id |
| `GameEvents.GameEventMgr.GameEventSpawn` | src/game/GameEventMgr.cpp:727-802 | the lists of the signed id are added to both grids and the pools of a positive id are spawned; an id out of range changes nothing |
| `GameEvents.GameEventMgr.GameEventUnspawn` | src/game/GameEventMgr.cpp:804-880 | the lists of the signed id are taken out of both grids and the pools of a positive id are despawned |
| `GameEvents.GameEventMgr.ApplyNewEvent` | src/game/GameEventMgr.cpp:703-725 | active, positive list in, negative list out |
| `GameEvents.GameEventMgr.UnApplyEvent` | src/game/GameEventMgr.cpp:685-701 | inactive, positive list out, negative list in |
| `GameEvents.GameEventMgr.StartEvent` | src/game/GameEventMgr.cpp:73-106 | applies a valid event, and moves its times when asked |
| `GameEvents.GameEventMgr.StopEvent` | src/game/GameEventMgr.cpp:108-130 | takes back a valid event, and moves its times when asked |
| `GameEvents.GameEventMgr.EnableEvent` | src/game/GameEventMgr.cpp:132-170 | a change of state stops an active regular event, whichever way it changes |
| `GameEvents.GameEventMgr.PollEvent` | src/game/GameEventMgr.cpp:642-673 | one event is started, stopped, or spawned negatively before initialisation, as the calendar says |
| `GameEvents.GameEventMgr.Update` | src/game/GameEventMgr.cpp:622-683 | polls all ids in order by one clock reading and returns the shortest delay, each by a reading of its own, plus one second, in milliseconds |
| `GameEvents.GameEventMgr.Initialize` | src/game/GameEventMgr.cpp:586-610 | no event active, the first update, then the initialised flag |
| `GameEvents.GameEventMgr.GetGameEventId` | src/game/GameEventMgr.cpp:978-987 | the signed id of the first list that holds the guid, 0 when none does |
| `GameEventProofs.SlotBijection` | src/game/GameEventMgr.cpp:729 | signed ids and list indices correspond one to one, and the lookup inverts a unique tag |
| `GameEventProofs.SpawnInvariant` | src/game/GameEventMgr.cpp:586-880 | in every run after initialisation a uniquely tagged spawn with data, or a pool, is out exactly while its event is active, or inactive for a negative tag, pooled guids under a negative tag excepted |
| `GameEventProofs.IgnoredStays` | src/game/GameEventMgr.cpp:586-880 | in every run a guid without data, or pooled and tagged only negatively, stays where it was |
| `GameEventProofs.PollDecides` | src/game/GameEventMgr.cpp:642-673 | an update leaves each regular enabled event active exactly when the calendar says so and no other event changed |
| `GameEventProofs.EnableMeans` | src/game/GameEventMgr.cpp:132-170 | only a change of a valid event does anything: its flag, and an active event that is not scripted is stopped whichever way it went |
| `GameEventProofs.StopHolds` | src/game/GameEventMgr.cpp:108-122 | an overwriting stop survives the next update if and only if the event is over, or has no leap days and is shorter than its period |
| `GameEventProofs.StopUndone` | src/game/GameEventMgr.cpp:108-122 | a yearly week with one leap day, stopped by hand, is started again by the next update |
| `GameEventProofs.StartHolds` | src/game/GameEventMgr.cpp:73-99 | an overwriting start survives the next update |
| `GameEventProofs.SoonestReached` | src/game/GameEventMgr.cpp:675-683 | the returned delay is one that an event or the scripted events asked for |
| `GameEventProofs.ActiveUntilDelay` | src/game/GameEventMgr.cpp:622-683 | from its own clock reading to the returned delay an event is active as the calendar says if and only if it did not turn since the update began |
| `GameEventProofs.TurnBetweenReadings` | src/game/GameEventMgr.cpp:47-71 | an event of one minute in two, polled at second 59 and planned at second 60, stays active through the whole minute it should be off |
| `GameEventProofs.ScheduleExactly` | src/game/GameEventMgr.cpp:622-683 | over whole runs of updates that take time, one update governs each second, and from its reading of an event to the grace second the event follows the calendar if and only if it did not turn meanwhile |
| `GameEventProofs.ScheduleFollowsCalendar` | src/game/GameEventMgr.cpp:622-683 | over whole runs in which each update stays within its second, the active set matches the calendar at every second but possibly the grace second before an update |
| `WebSocket.WebSocketClient.ParseHeaderStep` | dep/dpp/wsclient.cpp:172-264 | on every buffer: what is handed out, removed and reported, and when another look is asked for |
| `WebSocket.WebSocketClient.HandleRead` | dep/dpp/wsclient.cpp:159-162 | wherever the drain loop ends, the frames it hands out, the buffer and the errors it leaves |
| `WebSocket.LoopEnds` | dep/dpp/wsclient.cpp:159-243 | the loop stops after some number of turns if and only if no frame comes up that is left in place |
| `WebSocket.CleanEnds` | dep/dpp/wsclient.cpp:159-243 | on a buffer without masked or overflowing frames it ends with the frames of the stream |
| `WebSocket.CleanExactly` | dep/dpp/wsclient.cpp:159-243 | where no length overflows, the loop ends if and only if no masked frame comes up |
| `WebSocket.LookIsStable` | dep/dpp/wsclient.cpp:172-243 | more bytes behind a complete frame do not change it |
| `WebSocket.OtherLooks` | dep/dpp/wsclient.cpp:172-264 | by literal opcode: too few bytes, masked frames, close frames with their code, unknown opcodes |
| `WebSocket.LongForm` | dep/dpp/wsclient.cpp:200-216 | a length in the 16-bit form is read whatever its size |
| `WebSocket.WrappingLength` | dep/dpp/wsclient.cpp:216-243 | a length whose end wraps round 64 bits hands out the rest of the buffer and removes only the wrapped sum |
| `WebSocket.SplitInvariance` | dep/dpp/wsclient.cpp:159-243 | however a stream is cut into reads, frames and left-over buffer are those of a single read, and every read finds a buffer on which the loop ends |
| `WebSocket.StreamDelivered` | dep/dpp/wsclient.cpp:172-243 | a stream of well-formed frames is handed out whole, except a last frame shorter than four bytes |
| `WebSocket.EmptyPingWaits` | dep/dpp/wsclient.cpp:174-176 | a single empty ping stays in the buffer |
| `WebSocket.AnySplitDelivers` | dep/dpp/wsclient.cpp:159-243 | the same for every split into reads |
| `WebSocket.FillHeader` | dep/dpp/wsclient.cpp:72-105 | writes the masked client header for every length, and nothing beyond it |
| `WebSocket.HeaderRoom` | dep/dpp/wsclient.cpp:35 | the header fits the ten bytes that callers pass if and only if the payload has at most 65535 |
| `WebSocket.FillLength` | dep/dpp/wsclient.cpp:89-93 | the 64-bit length, most significant byte first |
| `WebSocket.ServerGetsPayload` | dep/dpp/wsclient.cpp:72-119 | a server that follows sections 5.2 and 5.3 of RFC 6455 reads opcode and payload back unchanged |
| `HttpChunks.TurnProgress` | dep/dpp/httpsclient.cpp:204-254 | every pass keeps received <= size, and one that changes the state shrinks the buffer or leaves the content state |
| `HttpChunks.HttpsClient.HandleOnce` | dep/dpp/httpsclient.cpp:204-254 | one pass of the switch in a chunk state is the specified turn |
| `HttpChunks.HttpsClient.HandleBuffer` | dep/dpp/httpsclient.cpp:204-254 | from a chunk state the do-while loop ends in the state of the specified run |
| `HttpChunkProofs.FeedTwice` | dep/dpp/httpsclient.cpp:204-254 | two reads are one read of both |
| `HttpChunkProofs.SplitInvariance` | dep/dpp/httpsclient.cpp:204-254 | every stream, well-formed or not, decodes the same however it is cut |
| `HttpChunkProofs.ReceiveBounded` | dep/dpp/httpsclient.cpp:204-219 | no chunk ever holds more than its size |
| `HttpChunkProofs.SizeLineReads` | dep/dpp/httpsclient.cpp:239-241 | a size line with leading zeros, either case and an extension is read as its size |
| `HttpChunkProofs.StoiReads` | dep/dpp/httpsclient.cpp:239-241 | the whole of what is read as a size: blanks, a sign, 0x, digits of either case, anything else; outside a 32-bit int it throws |
| `HttpChunkProofs.StoiRefuses` | dep/dpp/httpsclient.cpp:239-246 | without a digit it throws |
| `HttpChunkProofs.AnyLine` | dep/dpp/httpsclient.cpp:234-254 | no number ends the connection, zero leads to the last line, any other to that much content, negative ones as unsigned |
| `HttpChunkProofs.BadTrailerWaits` | dep/dpp/httpsclient.cpp:221-233 | anything but a line end after a chunk is waited at for ever |
| `HttpChunkProofs.WholeBody` | dep/dpp/httpsclient.cpp:204-254 | a complete body is decoded to its data; one byte short of it the decoder still waits |
| `HttpChunkProofs.ChunkedBodyDecodes` | dep/dpp/httpsclient.cpp:204-254 | for every well-formed body and every cut, done exactly when the last byte has come, always a prefix of the data, and in the end the data |
| `Voice.LessIsReverseSerial` | dep/dpp/discordvoiceclient.cpp:77-114 | inside a window the comparison is the reverse of the serial order of 16-bit numbers, and of the order by distance from the start of the window |
| `Voice.WindowIsExact` | dep/dpp/discordvoiceclient.cpp:82-114 | it is right on all windows of n numbers if and only if n <= 5001 |
| `Voice.StrictWeakOrder` | dep/dpp/discordvoiceclient.cpp:77-114 | on windowed payloads it is a strict weak order |
| `Voice.CycleWithoutWindow` | dep/dpp/discordvoiceclient.cpp:77-114 | without a window it has a cycle |
| `Voice.PopsInTime` | dep/dpp/discordvoiceclient.cpp:77-114 | windowed payloads leave the queue in order of time |
| `Voice.Flush` | dep/dpp/discordvoiceclient.cpp:209-245 | the loop ends for every start and queue, with one guess per skipped number before each payload |
| `Voice.FlushDeliversAll` | dep/dpp/discordvoiceclient.cpp:209-245 | every parked payload is delivered once, in pop order |
| `Voice.FlushConsecutive` | dep/dpp/discordvoiceclient.cpp:209-245 | the numbers told run upwards without a gap |
| `Voice.FlushVisitsOnce` | dep/dpp/discordvoiceclient.cpp:209-245 | for an orderly batch each number up to the last is told exactly once, and no other number |
| `Conditions.MeetsIsTree` | src/game/Conditions.cpp:124-184 | on rows whose references reach no missing row and no cycle, evaluation returns and equals the plain Boolean tree with swap parity at the leaves, independent of early returns |
| `Conditions.ParamsGiven` | src/game/Conditions.cpp:50-121 | by literal type number, what each type asks of target, map and source |
| `Conditions.TreeLaw` | src/game/Conditions.cpp:148-184 | what NOT, OR and AND rows make of the rows their four values stand for, with the reverse and swap flags |
| `Conditions.EvaluateParts` | src/game/Conditions.cpp:148-184 | the early returns compute conjunction, disjunction and the extended negation of all parts |
| `Conditions.ReturnsExactly` | src/game/Conditions.cpp:124-184 | for every table, oracle and arguments, evaluation returns if and only if twice as many nested calls as rows are enough |
| `Conditions.RankExactly` | src/game/Conditions.cpp:148-184 | references from a row reach no missing row and no cycle if and only if no path of them is longer than the table |
| `Conditions.GroundedReturns` | src/game/Conditions.cpp:124-184 | such a row returns, for every oracle and all arguments |
| `Conditions.ForemostDecides` | src/game/Conditions.cpp:148-184 | evaluation that returns has followed first references to a leaf |
| `Conditions.NeverReturns` | src/game/Conditions.cpp:148-184 | where first references run in a circle or to a missing row, no oracle makes evaluation return |
| `Conditions.CheckedReturns` | src/game/Conditions.cpp:788-857 | a checked table whose NOT rows have no or lower optional references returns at every row |
| `Conditions.LoaderLaw` | src/game/Conditions.cpp:788-857 | exactly which of the four references of a row the loader wants to exist and to be lower |
| `Conditions.UpwardReferenceReturns` | src/game/Conditions.cpp:788-802 | lower references are not necessary: a checked table with an upward one that returns |
| `Conditions.OracleDecides` | src/game/Conditions.cpp:152-162 | a circle through the fourth value is entered exactly when the third is false |
| `Conditions.SelfReferencePasses` | src/game/Conditions.cpp:788-802 | a NOT row that refers to itself passes the checks and never returns |
| `AccountLimits.AccountMgr.CheckInstanceCount` | src/game/AccountMgr.cpp:687-714 | passes for a known instance, below the limit, or after dropping the expired entry of lowest id, and not otherwise |
| `AccountLimits.AccountMgr.AddInstanceEnterTime` | src/game/AccountMgr.cpp:716-728 | records the entry time for one account only |
| `AccountLimits.SizeBounded` | src/game/AccountMgr.cpp:687-728 | the map never holds more than the limit |
| `AccountLimits.EntryLasts` | src/game/AccountMgr.cpp:704-711 | an entry is kept for its whole hour |
| `AccountLimits.InstanceLimit` | src/game/AccountMgr.cpp:687-728 | in every checked run at most maxCount distinct instances are entered in any trailing hour |
| `AccountLimits.CheckExactly` | src/game/AccountMgr.cpp:687-714 | in every run a check refuses an instance if and only if it was not entered within the last hour and maxCount others were |
| `AccountLimits.DropsLowest` | src/game/AccountMgr.cpp:704-711 | a check changes nothing but to drop the entry of lowest id that is over an hour old |
| `AccountLimits.AccountPersistentData.JustMailed` | src/game/AccountMgr.cpp:801-804 | the target's time becomes now |
| `AccountLimits.AccountPersistentData.CanMail` | src/game/AccountMgr.cpp:806-820 | true for a known target, otherwise when fewer than the limit were mailed within the expiry |
| `AccountLimits.FirstContactOnce` | src/game/AccountMgr.cpp:801-820 | an account is first contacted at most once |
| `AccountLimits.MailLimit` | src/game/AccountMgr.cpp:801-820 | in every run in which each mail is checked no later than it is sent and with no mail in between, at most the limit of first contacts fall in any window of the expiry length |
| `AccountLimits.MayMailExactly` | src/game/AccountMgr.cpp:806-820 | in every run a target is allowed if and only if it was mailed before or fewer than the limit of accounts were mailed within the expiry |
| `Permissions.BasePermissions` | dep/dpp/guild.cpp:590-614 | owner and administrators all, nothing without the everyone role, else the union of the roles |
| `Permissions.BasePermissionsOfUser` | dep/dpp/guild.cpp:578-588 | no user or no member has none |
| `Permissions.FindOverwrite` | dep/dpp/guild.cpp:629-635 | the first overwrite of that kind and id |
| `Permissions.FirstOverwriteMeans` | dep/dpp/guild.cpp:629-635 | the entry found is the first of that id and kind, and none is found if and only if there is none |
| `Permissions.RoleOverwrites` | dep/dpp/guild.cpp:642-660 | the allowed and denied bits of all roles but everyone's |
| `Permissions.PermissionOverwritesOfUser` | dep/dpp/guild.cpp:616-674 | the user form, with its null and non-member cases |
| `Permissions.PermissionOverwrites` | dep/dpp/guild.cpp:676-729 | the member form |
| `Permissions.BothFormsAgree` | dep/dpp/guild.cpp:616-729 | both forms return the same for every member |
| `Permissions.OverwriteRule` | dep/dpp/guild.cpp:676-729 | bit by bit, over the entries of the channel: the first member overwrite of the member, over the first role overwrites of its roles, over that of everyone, over the base set, allow over deny, and owner and administrators (bit 3) everything |
| `Permissions.RolesAreASet` | dep/dpp/guild.cpp:642-660 | order and repetition of roles do not matter |
| `Utf8.Utf8Len` | dep/dpp/utility.cpp:257-293 | on any bytes on which it stays inside the string, the steps to the first zero byte |
| `Utf8.LenOfText` | dep/dpp/utility.cpp:257-293 | on valid text that is the number of characters before the first NUL |
| `Utf8.CountSteps` | dep/dpp/utility.cpp:257-293 | by literal byte ranges, how it steps over any first byte, and when it leaves the string |
| `Utf8.Utf8Substr` | dep/dpp/utility.cpp:295-329 | on any bytes the cut by the places the scan looks at, empty when a byte cannot be first |
| `Utf8.BoundsOfText` | dep/dpp/utility.cpp:304-321 | on valid text the places are the offsets of its characters |
| `Utf8.CutFromFront` | dep/dpp/utility.cpp:295-329 | from the front it is the first characters asked for |
| `Utf8.CutExactly` | dep/dpp/utility.cpp:295-329 | the slice asked for comes back if and only if it is empty, or starts at the front and ends before a NUL or after all text, or starts later and reaches the end without the sum wrapping short |
| `Utf8.CutInTheMiddle` | dep/dpp/utility.cpp:295-329 | the second of three characters comes back as the last two |
| `Utf8.BadLeadByte` | dep/dpp/utility.cpp:311-321 | a byte that cannot begin a character makes every cut after the front empty |
| `Utf8.Validate` | dep/dpp/utility.cpp:343-350 | throws when too short, cuts when too long, else returns the value |
| `Utf8.ValidatedLength` | dep/dpp/utility.cpp:343-350 | valid text that passes comes back as its first characters, between the two bounds in number up to a NUL |

## Left out

- InnerParse: compressed terms (`decode_compressed`) fail in the model: zlib is foreign code; terms nested in them are not followed.
- The sscanf of old float terms and the cast of a float map key to an integer are unknown functions; the kind of exception is not kept.
- JSON values of the binary kind, which `inner_build` prints as nothing, are not part of the value type.
- `append_atom`, `append_string`, `append_tuple_header`: not used by `inner_build`, flat.
- The global rate-limit flag of the request queue: workers may always take a snapshot, which only adds runs; later answers overwrite the flag.
- Deletion of finished requests after 60 seconds, `add_request_threads` and termination of threads: objects stay alive and the pool size is fixed.
- The request queue's interleavings are on values, one step per lock-protected section, so data races inside a section are not modelled; maps are walked in any order, not only key order.
- Scripted (hardcoded) world events, mails, creature data and quests of game events: scripted events only contribute a delay; what the pool manager does with pooled guids of negative lists, and inside a pool, is not modelled.
- Loading game events from the database and the leap-day count: the model takes the loaded rows, with a positive period on rows that can be active.
- HandleBuffer: the HTTP header text parser and the content-length state are not modelled, nor is the socket loop.
- HandleRead: asks that the drain loop ends (`LoopEnds` says exactly when), since a method that does not return has no result.
- FillHeader: asks for an array with room for the header, up to 14 bytes; what a write past the end of a shorter one does is not modelled.
- Opus decoding, mixing and the parking of payloads (range bookkeeping) in the voice client; the priority queue is the order in which it gives its elements up.
- Leaf conditions are an unknown function; the two kinds that refer to another condition through map objects (47 and 50) are leaves too.
- Permission masks are sets of bit numbers below 64 rather than machine words.
- Utf8Len: bytes on which it would read past the end of the string are not modelled.
- Utf8Substr: a cut from the front of such bytes, which counts them first, is not modelled.
- Validate: such bytes are not modelled.
