# Verification of netmon

`netmon` is a passive packet monitor: it parses captured frames, classifies them, watches for SSH
connection attempts and port scans, blinks an LED and drives a four-digit TM1637 display. This
project models its stateful algorithms in Dafny and proves what each of them keeps over every run.

| module | what it holds |
|---|---|
| `ScanTable`, `ScanHistory`, `ScanSnapshot` | the port-scan lists as values, the unbounded history they refine, the flat snapshot and its single pass |
| `ScanDetector` | the detector and snapshot objects, updated in place |
| `SshDedup`, `RulesEngine` | the expiring SSH table and its unbounded map; the linked list relinked in place and the rules |
| `Tm1637Device`, `Tm1637` | an edge-triggered decoder; the bit-banged driver over a bus that may fail at any write and refuse any byte |
| `LedActions`, `LedQueue`, `LedProtocol` | the ring of 32 actions; capture thread and LED worker under one mutex and condition |
| `DisplayProtocol` | capture thread and display worker as interleaved atomic steps |
| `DisplayOwnership`, `DisplayCounters`, `DisplayLifecycle`, `DisplayFreshness`, `DisplayScreen`, `DisplayCalls`, `DisplayClock`, `DisplayGiveUp` | what every interleaving of them keeps, what calls and iterations achieve, and how the display is given up |
| `Parser`, `ParserLaws`, `Serializer`, `Acceptance` | the layered parser, its two-run laws, an independent serializer, and the exact set of accepted captures |
| `Pipeline`, `PipelineRuns`, `FrameLaws` | one packet through parser, rules, LED and detector, whole runs, and both said of the captured frames |
| `EndToEnd` | from captured frames to the digits on the chip |

Two conventions run through the project. A component's unbounded history exists only in the
specification (ghost fields, or lists of past inputs); the objects store what the program stores.
Times are non-negative, below 2^32 and never decrease between calls, because the program converts a
`difftime` to `unsigned int` (`src/scan_detector.c:47`, `src/rules.c:57`).

One property a reader may expect is false: a source that never alerted does not always alert when it
first reaches the threshold. A fresh bucket starts with an alert time of 0 (`src/scan_detector.c:115`),
so nothing alerts while the clock is at most the window; `ScanHistory.FirstAlertNeedsLateClock` gives
the exact condition and `ScanHistory.EarlyScanIsMissed` an instance. The specification therefore
counts a source without alerts as one that alerted at time 0.

`dafny verify dfyconfig.toml` checks the whole project.

## Model

| member | source | states |
|---|---|---|
| ScanTable.PrunedSeen | src/scan_detector.c:61-89 | expiring a port list keeps, for every port, exactly the entry still inside the window |
| ScanTable.UpsertedSeen | src/scan_detector.c:126-150 | recording a port sets its time to now, changes no other port and adds no duplicate |
| ScanTable.PrunedTableLookup | src/scan_detector.c:152-176 | expiring treats each source on its own: its bucket is expired and kept, or dropped when idle; distinctness survives |
| ScanTable.PrunedTablePorts | src/scan_detector.c:152-176 | dropping idle buckets loses no live port of any source |
| ScanTable.PrunedTableAlerted | src/scan_detector.c:162-170 | a dropped bucket forgets an alert time only if that alert has left the window |
| ScanTable.DropNeedsOnlyEmptyList | src/scan_detector.c:162-164 | in every reachable bucket the list is empty after expiry iff all three drop conditions hold, so the last two decide nothing |
| ScanTable.SecondPruneIsIdle | src/scan_detector.c:226-234 | after expiry of all sources, expiring the observed source again changes no list |
| ScanHistory.ObservedPorts | src/scan_detector.c:203-239 | one observation, read by source and port: the observed pair at now, every other pair clipped to the window |
| ScanHistory.ObservedAlerts | src/scan_detector.c:239-253 | when one observation alerts, the alert's fields, and which alert times remain stored |
| ScanHistory.StepRefines | src/scan_detector.c:203-254 | one observation keeps the lists in agreement with the history that never forgets, and answers the alert that history calls for |
| ScanHistory.RunRefines | src/scan_detector.c:152-254 | after every run the lists hold exactly the in-window (source, port) pairs at their latest times, without duplicates or empty buckets |
| ScanHistory.AlertsMatchHistory | src/scan_detector.c:203-254 | on every run the verdict and every alert field equal those of an unbounded history; expiry, dropping and forgotten alert times are unobservable |
| ScanHistory.AlertsAreSpaced | src/scan_detector.c:245-249 | two alerts for one source are more than the window apart, also when its bucket was dropped and re-created in between |
| ScanHistory.FirstAlertNeedsLateClock | src/scan_detector.c:115-115 | when a source that never alerted reaches the threshold the detector raises its first alert iff the clock is already past the window, because a fresh bucket reads as alerted at time 0 |
| ScanHistory.EarlyScanIsMissed | src/scan_detector.c:245-247 | a concrete scan at clock 5 with a window of 10 that reaches its threshold and raises nothing |
| ScanHistory.StorageIsBounded | src/scan_detector.c:152-176 | stored entries never outnumber the qualifying SYNs inside the window |
| ScanHistory.BucketsAreBounded | src/scan_detector.c:126-176 | no bucket is empty and none holds more than 65536 ports |
| ScanHistory.CountIsCardinality | src/scan_detector.c:91-101 | a list without duplicates is as long as the set of ports it answers for |
| ScanSnapshot.FlattenedContiguous | src/scan_detector.c:287-292 | with distinct sources in the lists, the entries of each source are contiguous in the snapshot |
| ScanSnapshot.PassIsLargest | src/scan_detector.c:305-315 | on contiguous entries the single pass that compares neighbours yields the largest per-source count of live entries |
| ScanSnapshot.SnapshotShowsHistory | src/scan_detector.c:261-317 | a snapshot taken after any run answers, at every later time, the true per-source maximum of distinct in-window ports of the whole history |
| ScanSnapshot.PassAges | src/scan_detector.c:296-317 | the value read from any snapshot never rises as time passes |
| ScanSnapshot.PassAgesOut | src/scan_detector.c:296-317 | once the newest entry has left the window the value is 0 |
| ScanDetector.SourceEntry.PrunePorts | src/scan_detector.c:61-89 | in place, the list becomes its expired form |
| ScanDetector.SourceEntry.Expire | src/scan_detector.c:160-164 | expires one bucket and reports whether it is idle |
| ScanDetector.SourceEntry.UpsertPort | src/scan_detector.c:126-150 | in place, the port is refreshed or put in front |
| ScanDetector.SourceEntry.CopyPorts | src/scan_detector.c:288-291 | copies one row of the snapshot and leaves the rest of the buffer alone |
| ScanDetector.SourceEntry.Visit | src/scan_detector.c:233-253 | records the port, counts, tests the cooldown and stamps the alert |
| ScanDetector.Detector.constructor | src/scan_detector.c:178-190 | defaults of 10 seconds and 20 ports, no source, empty history |
| ScanDetector.Detector.PruneSources | src/scan_detector.c:152-176 | in place, every source is expired and idle ones are dropped, in order |
| ScanDetector.Detector.FindOrCreateSource | src/scan_detector.c:103-124 | finds the source's bucket or puts an empty one in front |
| ScanDetector.Detector.Record | src/scan_detector.c:226-253 | the whole observation on the object's lists equals the specification step |
| ScanDetector.Detector.ObserveAt | src/scan_detector.c:203-254 | the answer is the alert the whole history calls for; packets that do not qualify, and a failed clock, change nothing; which captures qualify is CountedIffSynFrame |
| ScanDetector.Detector.CountEntries | src/scan_detector.c:273-280 | counts exactly the entries that will be copied |
| ScanDetector.Detector.FillEntries | src/scan_detector.c:287-292 | fills the buffer exactly, in list order |
| ScanDetector.Detector.TakeSnapshot | src/scan_detector.c:261-294 | a fresh copy of the lists, or nothing when memory fails |
| ScanDetector.Snapshot.MaxPorts | src/scan_detector.c:296-317 | the loop's result is the largest per-source count when entries are contiguous; 0 when the clock failed |
| SshDedup.RunRefines | src/rules.c:42-123 | after every run the table holds exactly the keys of the last 5 seconds, once each, at their latest times |
| SshDedup.EscalatesWhenNotSeen | src/rules.c:78-123 | a SYN escalates iff its five-field key was not sighted in the 5 seconds before, in a map that never prunes |
| SshDedup.OneAlertPerBurst | src/rules.c:78-123 | alerts for a key are one plus the number of gaps over 5 seconds between its sightings |
| RulesEngine.Engine.Unlink | src/rules.c:58-62 | relinks the heap list around one node |
| RulesEngine.Engine.PruneAttempts | src/rules.c:42-69 | in place, the linked list loses exactly the expired nodes and keeps its order |
| RulesEngine.Engine.FindNode | src/rules.c:95-106 | the node of the first attempt with the same five fields, or none |
| RulesEngine.Engine.Refresh | src/rules.c:102-103 | refreshing one node changes its time and nothing else |
| RulesEngine.Engine.Prepend | src/rules.c:114-121 | a new node in front of the unchanged list |
| RulesEngine.Engine.Sight | src/rules.c:93-122 | expire, find, refresh or prepend equals the specification step |
| RulesEngine.Engine.ShouldEscalate | src/rules.c:78-123 | the verdict is that of the map that never prunes for the packet's key, whose five fields SameKeyIffSameAttempt pins; a failed clock keeps the alert and records nothing |
| RulesEngine.Engine.EvaluatePacket | src/rules.c:204-220 | a repeated SSH SYN is demoted, everything else is reported as classified, and only SSH SYNs touch the table |
| Tm1637Device.ByteRoundTrip | src/tm1637.c:68-69 | the eight bits written low bit first reassemble to the byte |
| Tm1637Device.DigitsRoundTrip | src/tm1637.c:189-198 | reading the four digits gives back the page and min(value, 999), and the 0x7f mask takes no segment away |
| Tm1637Device.OtherPagesAreDark | src/tm1637.c:194-194 | a page number outside 1 to 3 leaves the first digit dark and the others as they are |
| Tm1637Device.RefreshShows | src/tm1637.c:200-217 | from the frames of a completed refresh, decoded from any earlier state of the chip, the digit registers read as the page and the number |
| Tm1637Device.EdgesAreRecorded | tests/display_synthetic.c:51-97 | the bytes the decoder lists are those of its events, edge by edge |
| Tm1637Device.RefreshIsRead | src/tm1637.c:200-217 | after the frames of a whole refresh the chip's registers hold the masked segments, lit at the brightness, whatever they held before |
| Tm1637.Display.OpenFrame | src/tm1637.c:48-51 | from any line state, what the chip decodes while a frame is opened, and what a failed attempt leaves in it |
| Tm1637.Display.CloseFrame | src/tm1637.c:53-61 | the clock edge inside the closing sequence leaves no data bit, and when its four writes succeed both lines are high and the chip inactive |
| Tm1637.Display.WriteBit | src/tm1637.c:69-71 | without a fault the chip receives exactly this bit; with one it receives it or nothing |
| Tm1637.Display.WriteByte | src/tm1637.c:63-78 | without a fault the chip decodes exactly this byte and the result is its acknowledgement; with one, an answer was read iff the chip has the whole byte, otherwise it has some of its bits |
| Tm1637.Display.SendBytes | src/tm1637.c:83-87 | stops at the first byte refused or faulted; whatever the faults, the chip has exactly the bytes that were answered, and only the last answer can be a refusal |
| Tm1637.Display.Transaction | src/tm1637.c:80-89 | one frame. Without a line fault: START, the bytes up to the first refusal, STOP, and nothing else. Whatever the faults: a prefix of the frame behind at most one byte left from before; a refused byte is the last one clocked and only the four closing writes follow it; four good closing writes release both lines |
| Tm1637.Display.Write | src/tm1637.c:200-217 | success iff no line write failed and all seven bytes were acknowledged. Without a line fault: exactly the bytes up to the first refusal, in closed frames. Whatever the faults: a prefix of the seven bytes behind at most one byte left from before, and a refused byte ends it as in the next row |
| Tm1637.RefusalEndsTheRefresh | src/tm1637.c:53-89 | whatever line writes fail, a refusal of byte k means failure, exactly the k bytes clocked, and no line write beyond the frames up to that of byte k, so no later transaction began |
| Tm1637.WrittenIsOnTheChip | src/tm1637.c:200-217 | after a successful write the registers decoded from the lines hold the masked segments, lit, whatever was decoded before |
| Tm1637.ClearedIsDark | src/tm1637.c:219-225 | after the frames of a successful clear the registers are blank and the display is off |
| Tm1637.Display.Clear | src/tm1637.c:219-225 | a blank refresh, then the off frame whether or not the refresh succeeded; success iff both did; what the chip decodes of each under any fault |
| Tm1637.EncodeNumber | src/tm1637.c:189-198 | fills the buffer with the digits the decoder reads back |
| LedQueue.PushAppends | src/gpio_led.c:246-252 | the ring refines a sequence of at most 32: a push appends or, when full, changes nothing |
| LedQueue.PopTakesOldest | src/gpio_led.c:96-98 | a pop takes the oldest action |
| LedQueue.Queue.Enqueue | src/gpio_led.c:246-252 | on the array: accepted iff not full, contents extended at the end |
| LedQueue.Queue.Pop | src/gpio_led.c:92-99 | on the array: the oldest action and the rest, or none |
| LedProtocol.ActionsArePlayedInOrder | src/gpio_led.c:85-120 | under every interleaving accepted actions are those played, then in flight, then queued, in order; the tail is (head + count) mod 32; every offer is accepted, lost or undecided |
| LedProtocol.OnlyFullQueueLoses | src/gpio_led.c:246-252 | an action is lost only when 32 are queued |
| LedProtocol.NoLostWakeup | src/gpio_led.c:85-94 | with the mutex free, a worker waiting without a wake-up has an empty queue and was not asked to stop |
| LedProtocol.QueuedIsPlayed | src/gpio_led.c:85-115 | while something is queued and the worker is not stopped, every step of the worker brings it nearer to playing, and no other step sets it back or takes anything from the queue |
| LedProtocol.DestroyReturns | src/gpio_led.c:267-272 | while the destroyer joins, the worker can move and every move brings it nearer its end |
| LedProtocol.NeverStuck | src/gpio_led.c:85-120 | neither thread can move only after destruction or when idle with an empty queue |
| DisplayOwnership.ExactlyOnePlace | src/display.c:272-307 | under every interleaving an allocated snapshot is in exactly one of: capture thread, pending, latest, active, freed |
| DisplayOwnership.NoUseAfterFree | src/display.c:126-144 | every snapshot a thread holds or shares - worker, pending, and the one the capture thread publishes or is about to free - is allocated and not freed yet, and nothing is freed twice |
| DisplayOwnership.AllFreedAtTheEnd | src/display.c:294-307 | when destroy has returned every snapshot was freed exactly once, also one published after the worker left |
| DisplayCounters.CountersAreExact | src/display.c:252-270 | between calls each counter is the saturated number of its events recorded while the display was available, despite the split load and store |
| DisplayCounters.ReadsNeverFall | src/display.c:62-70 | over any continuation the values the worker reads never fall and never exceed the events recorded |
| DisplayLifecycle.StartUpNeverStuck | src/display.c:108-113 | until the capture thread is past start-up one of the threads can move, and it is past it only after the worker reported |
| DisplayLifecycle.StartUpNearsItsEnd | src/display.c:108-113 | every step of either thread in start-up lowers a measure of what is left of it; a spurious wake-up raises it by at most two |
| DisplayLifecycle.DestroyReturns | src/display.c:294-305 | while destroy joins, the worker can always move and comes nearer to its end, whatever device and clocks answer |
| DisplayLifecycle.CaptureNeverBlocks | src/display.c:252-292 | a record or publish call can always take its next step and returns after at most six steps of its own, whatever the worker does in between |
| DisplayFreshness.StepKeepsInOrder | src/display.c:126-130 | every step keeps the snapshots on their way to the screen strictly newer towards the publisher, and the newest of them equal to the published revision |
| DisplayFreshness.StepKeepsFaithful | src/display.c:279-288 | every step keeps each snapshot equal to the detector's contents at its revision |
| DisplayFreshness.EveryScheduleInOrder | src/display.c:115-165 | both hold under every interleaving |
| DisplayFreshness.ActiveNeverGoesBack | src/display.c:126-130 | over any continuation the revision on the screen never decreases until the worker gives the snapshot up |
| DisplayFreshness.SkipIsHarmless | src/display.c:279-282 | publication is skipped iff the latest published snapshot still equals the detector's contents |
| DisplayFreshness.NothingPendingMeansCurrent | src/display.c:126-130 | with nothing pending and no exchange outstanding the screen's snapshot is the published revision |
| DisplayFreshness.OneIterationCatchesUp | src/display.c:115-144 | while the capture thread is quiet, one pass of the worker from its exchange on brings the screen to the published revision |
| DisplayScreen.ScreenShowsFrame | src/display.c:136-144 | writing only on change refines writing always: whenever the worker sleeps the device shows the frame of the sampled values |
| DisplayScreen.StartUpShowsZero | src/display.c:97-103 | when the worker reports success the display shows page 1 with the number 0 |
| DisplayScreen.PagesTurnEverySecond | src/display.c:72-95 | in the k-th second after the first write the first digit shows page k mod 3, counted from 1 |
| DisplayClock.SamplesAreFresh | src/display.c:131-132 | from an exchange on, under every interleaving, the two times an iteration samples lie between the clocks at the exchange and the clocks now |
| DisplayClock.StartIsTheFirstWrite | src/display.c:100-101 | pages are timed from the clock at the first write, once and for all |
| DisplayClock.WorkerComesAround | src/display.c:115-160 | while nothing fails and nobody stops it, the worker comes to an exchange and to a sleep within ten steps of its own, whatever the capture thread does |
| DisplayGiveUp.FailureIsFinal | src/display.c:132-160 | a failed clock, write or timer ends the loop for good |
| DisplayGiveUp.PublishSettles | src/display.c:272-292 | whatever memory answers, a publish call returns with the detector published, the failure on record, or the worker gone |
| DisplayGiveUp.FailureDisablesTheDisplay | src/display.c:122-125 | after a failed allocation the worker gives the display up within eleven of its own steps |
| DisplayGiveUp.UnavailableMeansUntouched | src/display.c:246-282 | once the display is unavailable no event is counted and no snapshot made, for good |
| DisplayScreen.CounterPagesRead | src/display.c:72-79 | pages 1 and 2 read as the sampled counters, cut off at 999 |
| DisplayCalls.PublishPublishes | src/display.c:272-292 | a publish call entered while no allocation has failed, in any interleaving with the worker, leaves the detector's contents at its start published when it returns, unless the worker has given the display up |
| DisplayCalls.QuietRunSamples | src/display.c:62-70 | while only the worker runs the counters stand still and an iteration samples them as they are |
| DisplayCalls.EveryScheduleTallied | src/display.c:252-270 | under every interleaving the history is what was observed, and the events counted are the record calls, all of them as long as the display is available |
| EndToEnd.QuietIterationShows | src/display.c:115-144 | with an idle capture thread and everything published, one iteration of the worker from its exchange to its sleep shows, on the page of a moment in between, the counters or min(999, the largest in-window port count of any source in the whole history at a moment in between), and 0 when the window had passed the newest SYN before the exchange |
| EndToEnd.PublishedIsShown | src/display.c:115-292 | the same after any publish call that found memory, run to its end in any interleaving with the worker, and one iteration after it |
| EndToEnd.PublicationIsFollowedUp | src/display.c:115-160 | after such a call, ten steps of a worker that is still going bring it to an exchange and ten more to its sleep, so the previous row applies |
| EndToEnd.RunCallsCount | src/main.c:242-256 | the calls a run of captures makes: the counted SYNs, the accepted Echo Requests, the non-repeated SSH SYNs |
| EndToEnd.EveryCaptureIsPublished | src/main.c:256-256 | every capture ends in exactly one publish call, after its record and observe calls |
| EndToEnd.PagesReadTheCaptures | src/main.c:230-257 | from captured frames to digits: after the last publish call of a run and one iteration, the three pages read as the Echo Requests, the non-repeated SSH SYNs and the largest in-window port count of that run |
| EndToEnd.ScreenIsOnTheChip | src/display.c:138-143 | whenever the worker sleeps, a successful write of the segments it holds leaves exactly these in the chip's registers |
| Parser.Parse.ParseArp | src/parser.c:68-105 | fills the ARP fields exactly as the layer specification says, error flags included |
| Parser.Parse.ParseIcmp | src/parser.c:107-117 | likewise for ICMP |
| Parser.Parse.ParseTcp | src/parser.c:119-149 | likewise for TCP, with options counted by the data offset |
| Parser.Parse.ParseUdp | src/parser.c:151-172 | likewise for UDP |
| Parser.Parse.ParseIpv4 | src/parser.c:174-241 | likewise for IPv4 and the layer above it |
| Parser.Parse.ParsePacket | src/parser.c:243-282 | the whole parse; accepted iff neither error flag is set; no read outside the capture on any path |
| ParserLaws.VerdictIsStable | src/parser.c:68-282 | without truncation, every longer capture of the packet gives the same verdict and fields, except the recorded lengths |
| ParserLaws.LongCapturesAreComplete | src/parser.c:119-138 | 134 captured bytes are never reported truncated |
| ParserLaws.TruncatedIffMoreBytesMatter | src/parser.c:68-282 | truncation is reported iff uncaptured bytes could change the answer |
| ParserLaws.EveryParseIsConsistent | src/parser.c:107-282 | one network and one transport layer at most; TCP, UDP and ICMP only above IPv4 of an accepted packet; never both error flags |
| ParserLaws.AbsentLayersAreZero | src/parser.c:29-39 | in every result the fields of layers that were not found are zero |
| Serializer.ParsingInvertsWriting | src/parser.c:243-282 | parsing a serialized frame returns exactly its fields: ARP, IPv4 with any options and fragment bits, TCP with any options, UDP, ICMP, other payloads |
| Serializer.HeaderReadsBack | src/parser.c:190-218 | every valid IPv4 header, with options, reads back with its lengths, addresses and fragment fields |
| Serializer.TcpReadsBack | src/parser.c:119-149 | every valid TCP segment, with options, reads back |
| Acceptance.IpWritesBack | src/parser.c:174-241 | bytes that pass the IPv4 and transport checks are the serialization of a valid header and segment |
| Acceptance.AcceptsExactlyFrames | src/parser.c:243-282 | a capture is accepted iff it is a serialized valid frame, and the answer is what that frame says |
| Pipeline.Context.Light | src/gpio_led.c:234-253 | an action is queued iff the LED is available, there is an action and the queue is not full |
| Pipeline.Context.Decide | src/main.c:244-248 | the first layer's event, its effect on the SSH table and on the LED queue |
| Pipeline.Context.Detect | src/main.c:251-255 | the scan event, its effect on the detector and on the LED queue; it reports the source, its distinct ports in the window and the window length |
| Pipeline.ScansAreReported | src/rules.c:222-246 | a packet is reported as a scan exactly when the history calls for it: an alert with rapid blinking, the packet's source, the number of its distinct ports in the window, and the window length |
| Pipeline.Context.ProcessPacket | src/main.c:230-257 | one packet: both tables, the events in order and the LED queue follow from the parse and the two histories; every event carries the packet or reports its source as scanning |
| PipelineRuns.RejectedLeaveNoTrace | src/main.c:242-256 | over any run malformed and truncated packets change neither table and nothing that is logged |
| PipelineRuns.SshSynsAreScanned | src/rules.c:71-76 | for every parse the rules consult the SSH table iff the detector counts the packet and its port is 22 |
| PipelineRuns.SshHistoryIsScanOnPort22 | src/main.c:244-251 | over any run the SSH table sees exactly the SYNs the detector counts on port 22, in order |
| PipelineRuns.CountedIffSynFrame | src/scan_detector.c:213-219 | the detector counts a capture iff its bytes are a frame with SYN set and ACK clear at the start of its TCP segment; source and port are the frame's |
| PipelineRuns.InitialSynBits | src/rules.c:71-76 | the program's test of the flags byte holds iff the SYN bit is set and the ACK bit is not |
| FrameLaws.ReportedIffEventFrame | src/rules.c:125-178 | a capture is an event iff its bytes are a frame of a reported kind; kind, severity, LED action and packet of the event are those of the frame; the SSH table is consulted iff it is an initial SYN to port 22 |
| FrameLaws.SameKeyIffSameAttempt | src/rules.c:97-101 | two SSH SYNs have the same key iff their frames agree on both addresses, both ports and the sequence number |
| FrameLaws.SshAlertIffNewAttempt | src/rules.c:78-123 | over any run a capture raises the SSH alert iff it carries an initial SYN to port 22 and no capture of the 5 seconds before carries one equal in the five fields |
| FrameLaws.PacketLights | src/gpio_led.c:234-253 | an accepted Echo Request adds a short blink, a non-repeated SSH SYN a long one, a scan alert a rapid one behind it, each unless 32 are waiting; nothing else adds anything |
| PipelineRuns.SnapLengthDoesNotMatter | src/main.c:242-251 | a larger snap length changes neither history, over any run of untruncated captures |
| PipelineRuns.CountersCountTheRun | src/display.c:259-263 | over any run the events that move the display counters are the accepted Echo Requests and the non-repeated SSH SYNs |

## Left out

- Allocation failure in the detector and in the SSH table: buckets, ports and attempts are always allocated; failure of the snapshot allocation is modelled.
- The two nested lists of the detector are sequences of entries in list order, held by objects; relinking of `next` pointers is modelled for the SSH table only.
- Clocks that run backwards, times of 2^32 and more, 64-bit revision wrap-around and nanosecond overflow in `elapsed_ms`; a clock that fails is modelled.
- The capacity test of the snapshot (`src/scan_detector.c:275-277`): list lengths are unbounded integers.
- Null arguments, which every entry point of the program rejects, and the disabled or refused display and LED controllers.
- DisplayProtocol: an observation of the detector is one step of the capture thread and a device write one step of the worker, the start-up write together with the clock reading after it; `EndToEnd.ScreenIsOnTheChip` ties a successful write to the line writes of the driver; the interrupted-sleep retry is part of the sleep; a failed worker creation and the warning texts are not modelled.
- Tm1637.Bus: a line write that fails leaves its line unchanged; delays and the chip's timing limits are not modelled.
- LedProtocol: playing a pattern is one step; blink durations and the GPIO line are not modelled.
- Parser: bit masks and shifts are written as division and remainder; layer 4 is not bounded by the IPv4 total length, as in the program.
- Pipeline.Context.ProcessPacket: the logger and the display calls are the returned events; the record, observe and publish calls of a run are joined to the display in EndToEnd; the LED worker, which may take actions between the two of one packet, is part of LedProtocol.
- `src/capture.c`, `src/logger.c`, argument parsing, signals, GPIO access and process start-up and shutdown.
