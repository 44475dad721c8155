# A verified model of the data-acquisition system

The system is a CAN data logger: an ESP32 master with a GPS-disciplined clock and an SD card, sensor
nodes that sample a rotating bearing and an engine's sparks, and two bench simulators that drive those
sensors. This project models the parts of it whose correctness is decided by the code itself, and proves
for all inputs, all runs and all faults what they keep.

Each module follows a source file or the meeting of two. State that the source updates in place is a
class whose methods are proved against a specification; the specification's own properties are lemmas.

| module | what it is about |
|---|---|
| `ClockDiscipline`, `ClockRuns`, `ClockTracking`, `AbsoluteClock` | the clock that follows GPS: a line in integer microseconds, gradual correction, rejection, step; when it can go back over a run; how closely it follows |
| `GpsReceiver`, `GpsClock` | line framing and burst timing of the GPS byte stream, and what any byte stream does to the clock while tasks read it |
| `RmcParser`, `RmcTime`, `Calendar` | the RMC sentence (NMEA 0183): checksum, fields, date and time; the calendar as an independent definition |
| `UbxConfig` | u-blox command frames and the one-counter acknowledgement matcher |
| `LogFormat`, `DataLogger`, `PairedExport` | the recording and its UTC companion, the logger's steps under every write fault, and the exporter as an as-of join |
| `CanTransmit`, `AppControl`, `NodeProtocol`, `SessionProtocol` | the retained transmit frame, the lifecycle calls and beacon, one node, and the whole recording-session protocol |
| `BearingEncoder`, `WheelSimulator`, `WheelSpeed` | quadrature decoding and the speed window, the wheel simulator, and the speed reported for a simulated wheel |
| `EngineSpeed`, `Sampler` | spark capture and the spark simulator; bounded queues and the sampling schedule |
| `CArithmetic`, `Wrappers` | C's truncating division and 32-bit residues; `Option` |

Time, received bytes, file-system outcomes, driver outcomes and bus outcomes are parameters: a property
holds for every value they can take. Queues are bounded sequences, and what the source does under one
critical section or mutex is one step.

Where the code and its documentation differ:

- `master-node/docs/ABSOLUTE_TIME.md` (line 28) says that absolute time never steps or runs backwards. In
  the code an observation is dated to the start of its burst and arrives later, while tasks read the clock;
  what they can read goes backwards exactly when an observation puts the estimate back at its arrival
  (`ClockRuns.BackwardsExactlyWhenLowered`). That happens in two cases, each with its exact guard
  (`ClockRuns.LowersExactly`): a step to a line that is behind there (`ClockRuns.ClockCanRunBackwards`), and
  an accepted observation of which, since its date, less has been corrected than the old line ran ahead of
  uptime (`AbsoluteClock.LateObservationLowersAReading`: 441 ms, then 440 ms, without a step). Both runs begin
  at power-on and are ones a receiver can feed (`GpsClock.SentencesMakeAReceivableRun` gives the conditions).
  Without a step the loss is bounded (`ClockRuns.LaterReadingBound`), and the bound is reached.
- `docs/LOG_FORMAT.md` (line 65) says that GPS cells have no age cutoff. In the code a held GPS reading
  counts as earlier only while its age, on the wrapping 32-bit clock, is below 2^31 ms
  (`PairedExport.GpsReadingTurnsBlank`); the join uses that.
- `docs/LOG_FORMAT.md` (line 13) says that records are 16 bytes. In the code a failed checkpoint writes its
  block again behind whatever part of it arrived; every record read is then still that of an accepted sample
  as long as each short write ends with a whole record (`DataLogger.Logger.EveryRecordWasAccepted`), and not
  otherwise (`DataLogger.PartialRetryShifts`).
- `sensor-node/docs/NODE_ARCHITECTURE.md` (line 29) says that a recovery report keeps the state and that later
  beacons reconcile it. The report writes back the state it read before; when a frame is dispatched between
  the read and the write, the node's belief and its sampler part ways, and beacons that repeat the believed
  state never bring them together (`NodeProtocol.RacingRecoveryLeavesSamplerRunning`). The boot report races
  in the same way. Exactly when a node settles is `SessionProtocol.SelfStabilisesExactly`.

## Model

| member | source | states |
|---|---|---|
| `CArithmetic.TruncDiv` | master-node/src/time/clock_discipline.c:15 | the quotient is the one truncated toward zero, for either sign of the dividend |
| `ClockDiscipline.DisciplinedClock.UtcUs` | master-node/src/time/clock_discipline.c:5-18 | the estimate is the specification's: 0 before the first fix, else the line |
| `ClockDiscipline.DisciplinedClock.JumpTo` | master-node/src/time/clock_discipline.c:21-28 | starts a fresh line at the GPS time, forgetting correction and misses |
| `ClockDiscipline.DisciplinedClock.Observe` | master-node/src/time/clock_discipline.c:30-61 | the code with its saturating 8-bit counter refines a specification that keeps the full list of misses: same outcome, same error, same next state; the first observation anchors, and any other is accepted if and only if its error is at most 200 ms |
| `ClockDiscipline.MissesSinceReset` | master-node/src/time/clock_discipline.c:43-59 | in every run the misses held are exactly the observations since the last one anchored, accepted or stepped |
| `ClockDiscipline.StepRule` | master-node/src/time/clock_discipline.c:43-52 | over any run, an observation steps the clock if and only if it and all observations since the last reset missed the same line by more than 200 ms, they are at least 5, and the first is at least 5 s earlier |
| `ClockDiscipline.CorrectionIsSpread` | master-node/src/time/clock_discipline.c:10-17 | a correction is spread evenly over 32 s, to within a microsecond, and is complete from then on |
| `ClockRuns.RateWithinLine` | master-node/src/time/clock_discipline.c:10-17 | within one line, elapsed UTC and elapsed uptime differ by at most 1/160, rounded up |
| `ClockRuns.LineNeverDecreases` | master-node/src/time/clock_discipline.c:5-18 | within one line with a correction of at most 200 ms, UTC never decreases |
| `ClockRuns.ContinuousUnlessStepped` | master-node/src/time/clock_discipline.c:40-60 | the estimate is unchanged at the date of a corrected or rejected observation, equals GPS at a step, and a new correction is at most 200 ms |
| `ClockRuns.LowersExactly` | master-node/src/time/clock_discipline.c:43-60 | an observation puts the estimate back at its arrival if and only if it steps to a line that is behind there, or is accepted with less of its error corrected since its date than the old line ran ahead of uptime in that time; the latter only if it arrives after its date |
| `ClockRuns.BackwardsExactlyWhenLowered` | master-node/src/time/absolute_clock.c:15-56 | over any run of reads and observations in the order they reach the clock, however old the observations, what tasks can read never decreases if and only if no observation puts the estimate back |
| `ClockRuns.ClockCanRunBackwards` | master-node/docs/ABSOLUTE_TIME.md:26-31 | a concrete run a receiver can feed, from power-on: an anchor and six steady observations one second behind, the last of which steps the clock back |
| `ClockRuns.BackDatedObservation` | master-node/src/time/clock_discipline.c:54-60 | an accepted observation dated d us before the latest read lowers any later read below it by at most floor(d/160)+ceil(d/160) us |
| `ClockRuns.BackDatingBoundIsReached` | master-node/src/gps/gps_receiver.c:134-140 | that bound is attained in a run a receiver can feed, from power-on: an accepted observation 80 ms old lowers the clock by 500 + 500 us at its arrival |
| `ClockRuns.LaterReadingBound` | master-node/src/time/absolute_clock.c:15-56 | over any run without a step, a later reading is below an earlier one by at most the sum of those bounds over the observations accepted between the two |
| `ClockRuns.RateOverRun` | master-node/src/time/clock_discipline.c:5-61 | over any run without a step, elapsed UTC is within 1/160 of elapsed uptime, plus less than 1 us for each line used, plus the same sum |
| `ClockTracking.RemainingBound` | master-node/src/time/clock_discipline.c:10-17 | what remains of an error after part of the correction period: smaller by the least share spread, never of the other sign, strictly smaller while a whole microsecond is due |
| `ClockTracking.TrackedStep` | master-node/src/time/clock_discipline.c:40-60 | one observation: the error found stays within the bound, and without drift it never grows or changes sign |
| `ClockTracking.TrackingBound` | master-node/src/time/clock_discipline.c:5-61 | if observations are at least T apart and GPS and uptime disagree by at most floor(B*T/32000000) each time, with B at most 200 ms, then from the anchor on every observation is corrected with an error of at most B |
| `ClockTracking.DeviationShrinks` | master-node/src/time/clock_discipline.c:10-17 | a deviation within the limit, corrected for at least T towards a target within the jitter, is within the limit less the drift, rounding included |
| `ClockTracking.TrackingWithJitter` | master-node/src/time/clock_discipline.c:5-61 | observations within J of true UTC, drift of at most d and at least T between them, (X-J)*T >= (d+1)*32000000 and J+X at most 200 ms: every observation is corrected and the estimate stays within X of true UTC |
| `ClockTracking.GapAbsorbed` | master-node/src/time/clock_discipline.c:10-17 | room for the shortest gap and for the longest is room for every gap between, each with the drift of its own length |
| `ClockTracking.TrackingAtRate` | master-node/src/time/clock_discipline.c:5-61 | the same with drift as a rate and gaps of any lengths between a shortest and a longest, so with sentences lost and bursts early |
| `ClockTracking.DocumentedTracking` | master-node/docs/ABSOLUTE_TIME.md:34-38 | a drift rate of 30 ppm and 20 ms of jitter: within 21.12 ms of true UTC with any gaps from 200 ms to 37 s, within 20.992 ms with any gaps from 1 s to 33 s |
| `ClockTracking.ErrorConverges` | master-node/src/time/clock_discipline.c:10-17 | without drift the error keeps its sign and falls by at least 1 us per observation until its size times T is below 32000000 |
| `AbsoluteClock.SharedClock.NowUtc` | master-node/src/time/absolute_clock.c:31-34 | a reading is the estimate in whole milliseconds |
| `AbsoluteClock.SharedClock.ObserveUtc` | master-node/src/time/absolute_clock.c:49-56 | times at or before 1970 change nothing, any other is one observation |
| `AbsoluteClock.NoTimeBeforeFirstFix` | master-node/src/time/clock_discipline.c:7 | in every run from power-on, each reading before the first observation is 0 |
| `AbsoluteClock.ReadingsAscend` | master-node/src/time/absolute_clock.c:15-34 | the millisecond readings of any run in which no observation puts the estimate back are in ascending order |
| `AbsoluteClock.LateObservationLowersAReading` | master-node/src/gps/gps_receiver.c:134-140 | in that run, which has no step, the two readings at the arrival are 441 ms and 440 ms, at the same uptime |
| `GpsReceiver.ReadSentences` | master-node/src/gps/gps_receiver.c:112-161 | for every byte stream, the lines delivered and the clock observations made are those of the position-by-position specification |
| `GpsReceiver.StartBurst` | master-node/src/gps/gps_receiver.c:58-62 | the burst-start variable is the burst's first byte time, or 0 once that burst has set the clock |
| `GpsReceiver.LineBuffer.Append` | master-node/src/gps/gps_receiver.c:154-159 | the 128-byte buffer with its overflow flag represents the whole line read so far |
| `GpsReceiver.LineBuffer.Finish` | master-node/src/gps/gps_receiver.c:128-131 | a line is delivered if and only if it had at most 127 bytes and no NUL, less one trailing CR; the buffer starts over |
| `GpsReceiver.LinesOfStream` | master-node/src/gps/gps_receiver.c:128-159 | printing any list of lines with newlines and framing the stream gives back exactly the deliverable ones, in order |
| `GpsReceiver.FramingStartsOver` | master-node/src/gps/gps_receiver.c:129-159 | after a newline, whatever garbage came before, framing goes on as from the start |
| `GpsReceiver.LineInBytes` | master-node/src/gps/gps_receiver.c:128-159 | in bytes: what the parser gets at a newline is everything since the last one, less one return at the end, if and only if that is at most 127 bytes and none is 0 |
| `GpsReceiver.BurstTimes` | master-node/src/gps/gps_receiver.c:126-127 | burst starts never go back, and a later burst starts at least 50 ms after every byte of an earlier one |
| `GpsReceiver.ObservationsAreSpaced` | master-node/src/gps/gps_receiver.c:134-140 | each burst makes at most one observation, and observed uptimes are at least 50 ms apart |
| `GpsReceiver.ObservationsAreDatedBack` | master-node/src/gps/gps_receiver.c:125-138 | for every byte stream, an observation is dated after power-on and not after the byte that completed it |
| `GpsReceiver.ObservedInBurst` | master-node/src/gps/gps_receiver.c:58-62 | in microseconds: of the bytes with gaps under 50 ms that follow a gap of at least 50 ms, the first to end a line with a UTC sets the clock, dated to the first of them, and no other does |
| `GpsReceiver.EveryFixSetsClock` | master-node/src/gps/gps_receiver.c:126-140 | when every line is a burst, every fix sets the clock, dated to the first byte of its line |
| `GpsReceiver.ObservationsAreCarried` | master-node/src/gps/gps_receiver.c:128-140 | when every line is a burst, the observations are exactly the times that the delivered lines carry, in order |
| `GpsClock.AnyByteStreamMakesARun` | master-node/src/gps/gps_receiver.c:112-161 | whatever bytes arrive and whenever other tasks read, the observations and reads make a run to which the clock's theorems apply |
| `GpsClock.SentencesMakeAReceivableRun` | master-node/src/gps/gps_receiver.c:112-140 | with the sentence parser, the observations of any byte stream are whole milliseconds of 2020 to 2099, dated after power-on and at least 50 ms apart |
| `GpsClock.AnyByteStreamWithAnyReads` | master-node/src/time/absolute_clock.c:15-56 | so from power-on what tasks can read goes backwards if and only if an observation puts the estimate back at its arrival; otherwise the readings ascend |
| `GpsClock.ReadingsOfAnyByteStream` | master-node/src/time/absolute_clock.c:15-56 | and between any two readings without a step between them, the later is below the earlier by at most the bounds of the observations accepted in between |
| `GpsClock.AnyByteStreamIsSpaced` | master-node/src/gps/gps_receiver.c:134-140 | the observations the clock takes, those at or before 1970 left out, are at least 50 ms apart |
| `GpsClock.AnyByteStreamIsTracked` | master-node/src/time/absolute_clock.c:49-56 | `TrackingBound` for the observations of any byte stream, with the 50 ms of the bursts or any longer spacing they have |
| `GpsClock.AnyByteStreamFollowsTrueUtc` | master-node/src/time/absolute_clock.c:49-56 | `TrackingWithJitter` for the observations of any byte stream, likewise |
| `GpsClock.PrintedMomentsReachTheClock` | master-node/src/gps/gps_receiver.c:112-140 | end to end: when a receiver prints valid sentences, a burst for each, the clock observes exactly the moments printed, in order |
| `UbxConfig.Frame` | master-node/src/gps/ubx_config.c:23-42 | the buffer holds sync bytes, class, id, length, payload and checksum, and nothing beyond the frame is touched |
| `UbxConfig.Checksums` | master-node/src/gps/ubx_config.c:33-40 | the wrapping 8-bit loop computes the plain and the position-weighted byte sums modulo 256 ("UBX Checksum" in the u-blox 6 Receiver Description Including Protocol Specification) |
| `UbxConfig.RaiseWeights` | master-node/src/gps/ubx_config.c:35-38 | one more byte raises every earlier byte's weight by one: the weighted sum grows by the plain sum |
| `UbxConfig.BuildRateCommand` | master-node/src/gps/ubx_config.c:44-63 | the six set-up commands, and nothing for any other index, fit the frame buffer |
| `UbxConfig.SilencingCommand` | master-node/src/gps/ubx_config.c:44-51 | the first five commands byte for byte, checksums included: rate 0 for the sentences 0, 1, 2, 3 and 5 of class 0xF0 |
| `UbxConfig.MeasurementCommand` | master-node/src/gps/ubx_config.c:52-61 | the sixth command byte for byte: one measurement and one solution every 200 ms, aligned to GPS time |
| `UbxConfig.BuildExpectedAck` | master-node/src/gps/ubx_config.c:65-69 | the acknowledgement ("ACK-ACK") names the command's class and id |
| `UbxConfig.AckBytes` | master-node/src/gps/ubx_config.c:65-69 | the acknowledgement of any command, byte for byte |
| `UbxConfig.WaitForAck` | master-node/src/gps/gps_receiver.c:66-80 | the loop stops at the first byte that completes the counter, and fails only when the stream is used up |
| `UbxConfig.CounterIsLongest` | master-node/src/gps/gps_receiver.c:73-77 | for a pattern without harmful overlap the counter is the length of the longest ending that starts the pattern |
| `UbxConfig.CompleteExactly` | master-node/src/gps/gps_receiver.c:66-80 | for such a pattern, the counter completes if and only if the whole pattern has occurred |
| `UbxConfig.OverlapIsMissed` | master-node/src/gps/gps_receiver.c:73-77 | a pattern that overlaps itself otherwise has a stream that contains it and is missed |
| `UbxConfig.MatcherExactCondition` | master-node/src/gps/gps_receiver.c:66-80 | the matcher finds every occurrence on every stream if and only if the pattern is free of such overlap |
| `UbxConfig.UniqueFirstByteSuffices` | master-node/src/gps/gps_receiver.c:76 | a pattern whose first byte does not recur is free of it |
| `UbxConfig.AcksAreMatchedExactly` | master-node/src/gps/ubx_config.c:65-69 | so the acknowledgements of all six commands are matched exactly on every stream |
| `RmcParser.FieldsFromRmc` | master-node/src/gps/rmc_parser.c:50-78 | a line is accepted if and only if it is well formed, its checksum agrees and its fields fit; the fields are the first ten of the split payload; the status is A and the type two upper-case letters and RMC |
| `RmcParser.AcceptedInBytes` | master-node/src/gps/rmc_parser.c:50-78 | acceptance told in bytes and counts, if and only if: dollar, star, two hexadecimal digits with the checksum, printable fields of at most 23 bytes, at least ten of them, type and status |
| `RmcParser.FindStar` | master-node/src/gps/rmc_parser.c:53 | finds the first star, or the end |
| `RmcParser.ComputeChecksum` | master-node/src/gps/rmc_parser.c:57-58 | the XOR of the payload's bytes |
| `RmcParser.ChecksumIsParity` | master-node/src/gps/rmc_parser.c:57-58 | each bit of the checksum is the parity of that bit over the bytes |
| `RmcParser.SplitFields` | master-node/src/gps/rmc_parser.c:61-73 | every field, stored or not, is held to 23 printable bytes; the first ten are stored |
| `RmcParser.ChecksumDetects` | master-node/src/gps/rmc_parser.c:57-59 | replacing any one byte changes the checksum |
| `RmcParser.JoinOfSplit` | master-node/src/gps/rmc_parser.c:61-73 | splitting any payload and joining on commas gives it back |
| `RmcParser.SplitOfJoin` | master-node/src/gps/rmc_parser.c:61-73 | joining comma-free fields and splitting gives them back |
| `RmcParser.SplitCutsAtCommas` | master-node/src/gps/rmc_parser.c:61-73 | field n is what lies between the n-th comma and the next |
| `RmcParser.SentenceParsesBack` | master-node/src/gps/rmc_parser.c:50-78 | a sentence printed from printable fields with its checksum is accepted and gives the same fields |
| `RmcParser.PrintedAcceptedExactly` | master-node/src/gps/rmc_parser.c:74-77 | a sentence printed from any printable fields with its checksum is accepted if and only if there are ten or more, the type is two upper-case letters and RMC, and the status is A |
| `RmcParser.SubstitutionRejected` | master-node/src/gps/rmc_parser.c:52-59 | replacing any one payload byte of an accepted sentence gets it rejected |
| `Calendar.DayCountIncreases` | master-node/src/gps/rmc_parser.c:123-127 | the day count is strictly increasing over dates |
| `Calendar.NextDayCountsOne` | master-node/src/gps/rmc_parser.c:91-94 | the next day, across month and year ends and leap days, counts one more |
| `Calendar.DayCountOfDateOf` | master-node/src/web/web_server.c:294-298 | walking n days from the epoch gives the date whose count is n |
| `Calendar.DateOfDayCount` | master-node/src/web/web_server.c:294-298 | and the date with count n is the one n days from the epoch |
| `Calendar.CivilOfUtcOf` | master-node/src/web/web_server.c:290-302 | the calendar of the export inverts the parser's UTC to the millisecond |
| `Calendar.UtcIncreases` | master-node/src/gps/rmc_parser.c:128 | UTC orders moments exactly as civil time does |
| `Calendar.MonthLengths` | master-node/src/gps/rmc_parser.c:119-120 | the length of every month, and 29 days for February in leap years |
| `Calendar.UtcClosedForm` | master-node/src/gps/rmc_parser.c:123-128 | the day count and the UTC of every valid moment from 1970 on in one expression of the date's numbers, without counting year by year or month by month |
| `RmcTime.Digits` | master-node/src/gps/rmc_parser.c:81-89 | the value of the digits, or -1 |
| `RmcTime.ParseUtc` | master-node/src/gps/rmc_parser.c:96-130 | accepts and computes exactly what the field-by-field specification over the calendar does; what that is in bytes is `RmcTime.ParsedUtcInBytes` |
| `RmcTime.ParsedUtcInBytes` | master-node/src/gps/rmc_parser.c:96-130 | two texts are accepted if and only if they write a time of day and a date of 2020 to 2099 in digits, with the length of each month given as a number, and the UTC is then one expression of the digits |
| `RmcTime.ParseClock` | master-node/src/gps/rmc_parser.c:98-113 | the time of day, second 60 and malformed fractions refused |
| `RmcTime.ParseFraction` | master-node/src/gps/rmc_parser.c:107-113 | any number of fraction digits, the first three of which count |
| `RmcTime.CountDays` | master-node/src/gps/rmc_parser.c:123-127 | the two loops compute the calendar's day count, which is the closed form of `Calendar.UtcClosedForm` |
| `RmcTime.PrintedMomentParsesBack` | master-node/src/gps/rmc_parser.c:96-130 | every moment of 2020 to 2099 printed in RMC form parses back to its UTC and from there to itself |
| `RmcTime.ParseSentence` | master-node/src/gps/rmc_parser.c:132-155 | a sentence is valid if and only if its fields are accepted and its telemetry is absent or, as a given judge says, well formed; a bad time or date only leaves out the UTC |
| `RmcTime.PrintedSentenceCarriesItsMoment` | master-node/src/gps/rmc_parser.c:132-155 | a whole printed sentence, its telemetry absent or well formed, is valid and carries the UTC printed |
| `RmcTime.VoidSentenceHasNoUtc` | master-node/src/gps/rmc_parser.c:77 | no sentence printed with another status than A, another type or fewer than ten fields gives a UTC |
| `RmcTime.AcceptedMomentIsValid` | master-node/src/gps/rmc_parser.c:96-130 | whatever is accepted is the UTC of a valid moment of 2020 to 2099 |
| `RmcTime.AcceptedUtcInRange` | master-node/src/gps/rmc_parser.c:117-128 | every UTC accepted lies between the first millisecond of 2020 and that of 2100 |
| `LogFormat.BytesRoundTrip` | docs/LOG_FORMAT.md:13-21 | little-endian bytes give the value back |
| `LogFormat.RecordInBytes` | docs/LOG_FORMAT.md:13-21 | the record at a position from the bytes there: the identifier from bytes 0 to 3, measurement from 8 to 11, timestamp from 12 to 15, low byte first |
| `LogFormat.RecordWrittenInBytes` | docs/LOG_FORMAT.md:13-21 | what is written for a sample, byte for byte |
| `LogFormat.UtcInBytes` | master-node/src/web/web_server.c:283-288 | the companion entry at a position from the bytes there: blank unless all eight are there and, in two's complement, positive |
| `LogFormat.UtcWrittenInBytes` | docs/LOG_FORMAT.md:23 | and what is written for a sample, in two's complement |
| `LogFormat.EncodeChunk` | docs/LOG_FORMAT.md:13-23 | the i-th 16-byte (or 8-byte) chunk of a file is the i-th sample's |
| `LogFormat.OwnUtcOrBlank` | docs/LOG_FORMAT.md:23-25 | in aligned files an entry that is not blank is the UTC of the sample whose record stands at the same index |
| `LogFormat.StoredRecord` | docs/LOG_FORMAT.md:13-21 | every stored sample's record reads back at its index |
| `LogFormat.CompleteRecordingReadsBack` | docs/LOG_FORMAT.md:13-25 | a complete recording reads back to every sample's record and UTC, in order |
| `DataLogger.Logger.Start` | master-node/src/logger/data_logger.c:93-150 | starts, with empty files, queue and buffer, if and only if idle and both files open; which refusal is given when; a refusal changes nothing |
| `DataLogger.Logger.Stop` | master-node/src/logger/data_logger.c:207-216 | stops if and only if running |
| `DataLogger.Logger.Enqueue` | master-node/src/logger/data_logger.c:218-226 | while running, a sample is accepted at the end of the queue or counted as dropped, modulo 2^32; otherwise nothing changes |
| `DataLogger.Logger.WriteRecords` | master-node/src/logger/data_logger.c:238-264 | however short the writes, what reaches the files keeps them consistent, and the companion is closed unless everything was written |
| `DataLogger.Logger.FileWrites` | master-node/src/logger/data_logger.c:242-255 | entries are written for records complete in the binary, and the companion stays open only after a whole block and all its entries |
| `DataLogger.Logger.WriterReceive` | master-node/src/logger/data_logger.c:294-302 | takes the oldest sample and keeps conservation and alignment, writing each full block; files only grow |
| `DataLogger.Logger.Checkpoint` | master-node/src/logger/data_logger.c:304-311 | a due checkpoint reopens the files if and only if nothing was buffered or the block went through whole; else the block, its count and the open file are as before; alignment survives every failure |
| `DataLogger.Logger.CheckpointFile` | master-node/src/logger/data_logger.c:266-283 | reopening may fail for either file; a closed companion stays closed |
| `DataLogger.Logger.Drain` | master-node/src/logger/data_logger.c:312-326 | a stopping logger with an empty queue writes the rest and goes idle with nothing buffered |
| `DataLogger.Logger.WriterPass` | master-node/src/logger/data_logger.c:293-328 | one pass of the loop while stopping takes one sample, and goes idle when none is left |
| `DataLogger.Logger.RunUntilIdle` | master-node/src/logger/data_logger.c:285-329 | a stopping logger becomes idle; without faults the binary then holds exactly the accepted samples and the companion their UTCs |
| `DataLogger.Logger.EveryEntryIsItsOwn` | master-node/src/logger/data_logger.c:238-283 | in every reachable state, under any faults, a companion entry is the UTC of the sample recorded at its index |
| `DataLogger.Logger.EveryRecordWasAccepted` | master-node/src/logger/data_logger.c:304-310 | in every reachable state in which each binary write ended with a whole record, failed checkpoints and their retries included, every record of the binary is that of a sample accepted in this session |
| `DataLogger.PartialRetryShifts` | master-node/src/logger/data_logger.c:304-310 | the condition is needed: 8 bytes of a record and then the whole record read back as a record whose payload is the identifier |
| `DataLogger.BlockReadable` | master-node/src/logger/data_logger.c:242-243 | a block write that ends with a whole record appends the records of the block's first samples |
| `DataLogger.Logger.OtherTasks` | master-node/src/logger/data_logger.c:218-329 | any work of producers and writer keeps the books; a running session stays running and takes only what is offered, a stopping one takes nothing and may become idle |
| `DataLogger.BlockWritten` | master-node/src/logger/data_logger.c:242-255 | one block write with arbitrary short counts preserves conservation and alignment |
| `DataLogger.AlignedBlock` | master-node/src/logger/data_logger.c:243-255 | the complete records of a partly written block and the entries written for them extend the alignment |
| `PairedExport.StreamPairedCsv` | master-node/src/web/web_server.c:312-397 | the one pass with held latest values computes exactly the as-of join of the file; told in the file's records and nothing else, each row is that of one engine record, every cell of it right, in file order, none missing |
| `PairedExport.JoinIsExport` | master-node/src/web/web_server.c:328-395 | for every file and companion the join is the export: the rows of exactly those engine records that have a bearing record at most 100 ms before, in order |
| `PairedExport.RowOfIsRight` | master-node/src/web/web_server.c:364-390 | timestamp and engine speed are the halves of the record's payload; latitude, longitude and speed are v if and only if the last earlier record of 0x701, 0x702, 0x700 is less than 2^31 ms old and has v as its signed low half; bearing and brake likewise for 0x0B9 and 0x0B1 at most 100 ms old |
| `PairedExport.AsOfIsRight` | master-node/src/web/web_server.c:370-383 | one cell: it shows v if and only if the last earlier record of its signal is recent enough and says v |
| `PairedExport.ReadUtcMs` | master-node/src/web/web_server.c:283-288 | the n-th call gives entry n of the companion, or blank |
| `PairedExport.Hold` | master-node/src/web/web_server.c:334-363 | after any record, every held value is the last reading of its signal |
| `PairedExport.EngineRow` | master-node/src/web/web_server.c:364-389 | the row of the join, or none when no recent bearing speed precedes; what every cell of it is in the file's records is `PairedExport.RowOfIsRight` |
| `PairedExport.LastBeforeIsLast` | master-node/src/web/web_server.c:334-363 | the position the join refers to holds that signal and no later one before the record does |
| `PairedExport.HeldIsAsOf` | master-node/src/web/web_server.c:304-307 | the unsigned comparisons on held values are the as-of lookups: age 0..100 ms modulo 2^32, or below 2^31 for GPS |
| `PairedExport.GpsReadingTurnsBlank` | docs/LOG_FORMAT.md:65 | a GPS cell shows its reading at any age below 2^31 ms and is blank at 2^31 ms and beyond |
| `PairedExport.JoinIsComplete` | master-node/src/web/web_server.c:328-395 | every qualifying engine record has its row, at the place given by the qualifying records before it, and the number of rows is theirs |
| `PairedExport.RowHasItsReading` | master-node/src/web/web_server.c:364-366 | conversely every row is the row of one qualifying record |
| `PairedExport.RowsCarryTheirOwnUtc` | master-node/src/web/web_server.c:328-331 | from files that are aligned, each exported row carries its own sample's UTC or none |
| `PairedExport.ExportedRowsOfRecording` | master-node/src/web/web_server.c:328-331 | from the files of a logger in any reachable state, whatever faults it had, each exported row that has a UTC is that of a record whose sample was accepted with this UTC |
| `CanTransmit.Transmitter.Send` | master-node/src/can/can_master.c:75-111 | exactly when the send's own frame is handed over, when success and each error are reported, and that a held frame is never rewritten |
| `CanTransmit.Transmitter.WaitAllDone` | master-node/src/can/can_master.c:84-91 | a wait succeeds exactly if nothing is held any more and it notices |
| `CanTransmit.Transmitter.DriverCompletes` | master-node/src/can/can_master.c:92-107 | whenever the driver reads the retained buffer, the wire carries exactly the frames handed over, in order |
| `CanTransmit.Transmitter.SendCommandBurst` | master-node/src/can/can_master.c:113-126 | a burst hands over only copies of its command; success means all five are on the wire |
| `CanTransmit.NoErrorMeansAllSent` | master-node/src/can/can_master.c:115-125 | no first error is reported if and only if no copy failed |
| `CanTransmit.FirstErrorIsFirst` | master-node/src/can/can_master.c:115-125 | and otherwise the report is that of the first copy that failed |
| `AppControl.Control.StartLogging` | master-node/src/app/app_control.c:22-61 | a session starts if and only if the mutex is taken, the logger is idle and both files open; a refusal changes nothing; whatever producers and writer do during the call, the new session has only what was offered since, and the beacon flag is set exactly when the logger runs |
| `AppControl.Control.StopLogging` | master-node/src/app/app_control.c:63-93 | a session stops if and only if the mutex is taken and the logger is running; nothing accepted is lost and nothing more is accepted; the flag is cleared, and the writer may already be idle when the call returns |
| `AppControl.Control.BetweenCalls` | master-node/src/app/app_control.c:22-93 | between calls the master satisfies the session protocol's invariant |
| `AppControl.BuildBeacon` | master-node/src/time/time_beacon.c:27-34 | the payload is the 64-bit word of time and flag, low byte first; the top bit of its last byte is set if and only if a session is being recorded |
| `AppControl.BeaconInBytes` | master-node/src/time/time_beacon.c:27-34 | in bytes: 63 bits of time, and the flag in the top bit |
| `AppControl.ReceiveWord` | sensor-node/src/can/can_node.c:89-91 | the receive interrupt's shifts put the word together |
| `AppControl.BeaconRoundTrip` | sensor-node/src/can/can_node.c:166-173 | a node recovers from a beacon exactly the flag, and the time modulo 2^63 |
| `AppControl.HandedIsOnTheWire` | master-node/src/can/can_master.c:113-126 | what each step of the session protocol hands to the driver stands for a frame: the empty frames 0x0A1 and 0x0A0 of the command bursts and the beacon 0x0A2 ask every node for what the protocol says they do |
| `NodeProtocol.Node.OnStart` | sensor-node/src/sampler/sampler.c:54-67 | the sampler is on; a second start changes nothing |
| `NodeProtocol.Node.OnStop` | sensor-node/src/sampler/sampler.c:69-76 | the sampler is off |
| `NodeProtocol.Node.ReportState` | sensor-node/src/can/can_node.c:144-157 | sets the state and reports it with its reason |
| `NodeProtocol.Node.Dispatch` | sensor-node/src/can/can_node.c:159-206 | one frame: the effect on belief, sampler, callbacks, reports and the time passed on; with the identifiers as numbers, 0x0A1 for this node or all leaves an agreeing node running, 0x0A0 at rest, a beacon 0x0A2 of eight bytes whichever its top bit says, and any other frame changes nothing |
| `NodeProtocol.WantedOnTheWire` | sensor-node/src/can/can_node.c:159-206 | an empty 0x0A1 asks every node to run, an empty 0x0A0 to rest, a beacon for its top bit |
| `NodeProtocol.Node.ReportRecovery` | sensor-node/src/can/can_node.c:275-279 | writes back the state read earlier, and reports it |
| `NodeProtocol.FollowIsExamineAndSet` | sensor-node/src/can/can_node.c:174-203 | following a frame is comparing and making the callback, then setting the state |
| `NodeProtocol.FollowKeepsAlternation` | sensor-node/src/can/can_node.c:174-203 | a frame makes an agreeing node's belief and sampler both what it asks for, and its start and stop callbacks still alternate |
| `NodeProtocol.FrameHealsExactly` | sensor-node/src/can/can_node.c:174-203 | a frame makes belief and sampler both b if and only if they agreed or the belief differed from b |
| `NodeProtocol.DisagreementOutlivesSameFrames` | sensor-node/src/can/can_node.c:171-183 | a disagreement ends if and only if some frame asks for the opposite of the belief, however many frames arrive |
| `NodeProtocol.AgreementLasts` | sensor-node/src/can/can_node.c:171-203 | agreement lasts over any frames and follows the last |
| `NodeProtocol.RecoveryKeepsAgreementExactly` | sensor-node/src/can/can_node.c:279 | a recovery report with frames dispatched between its read and its write keeps agreement if and only if they left the state as read |
| `NodeProtocol.RacingRecoveryLeavesSamplerRunning` | sensor-node/src/can/can_node.c:279 | a concrete race after which the node believes it is idle and samples on, through any number of idle beacons |
| `SessionProtocol.UndisturbedDispatchFollows` | sensor-node/src/can/can_node.c:174-203 | the two steps of a dispatch that nothing disturbs have the effect of the whole dispatch |
| `SessionProtocol.StepKeepsInvariant` | master-node/src/app/app_control.c:22-93 | every step of master, transmit driver, bus, writer and nodes keeps the master's invariant |
| `SessionProtocol.InvariantOverRuns` | master-node/src/app/app_control.c:22-93 | in every reachable state, while the lifecycle mutex is free the flag is set exactly when the logger runs, and the driver holds at most one frame |
| `SessionProtocol.NodeStaysConsistentExactly` | sensor-node/src/can/can_node.c:144-206 | with dispatch and state reports interleaved step by step, a step keeps a node consistent if and only if it is not a report setting a state the node has left since it was read |
| `SessionProtocol.ConsistentExactlyWithoutStaleWrites` | sensor-node/src/can/can_node.c:279 | over every run, belief is sampler and start and stop callbacks strictly alternate per boot, up to any point, if and only if no such stale report came before it |
| `SessionProtocol.StepKeepsCalm` | master-node/src/can/can_master.c:75-111 | once no older frame is queued, held by the driver or being built, none comes to be while the flag stays |
| `SessionProtocol.BelieverStaysOverRuns` | sensor-node/src/can/can_node.c:159-206 | in calm, a node that believes b with no report of another state outstanding believes b for good, and its sampler does for good what it does then, right or wrong |
| `SessionProtocol.FrameSettlesExactly` | sensor-node/src/can/can_node.c:171-203 | when a node is done with a frame for b it believes b, whatever reports interleave, and samples accordingly if and only if belief and sampler agreed at its dispatch or it believed the opposite |
| `SessionProtocol.SelfStabilisesExactly` | sensor-node/src/can/can_node.c:159-206 | once the flag stays at b and nothing older is under way, and no report of an older state is outstanding when a node is done with its first frame, then at every later moment until it reboots it is settled at b if and only if at the dispatch it agreed or believed the opposite |
| `SessionProtocol.OlderWriteUnsettles` | sensor-node/src/main.c:60-62 | an outstanding report of an older state, of the boot or a recovery, unsettles the node when it happens |
| `BearingEncoder.Encoder.Isr` | sensor-node/src/sensors/bearing_encoder.c:106-119 | one interrupt adds its edge to the history that every read is defined on |
| `BearingEncoder.Encoder.Start` | sensor-node/src/sensors/bearing_encoder.c:149-166 | counts, window and last edge start over, the level does not |
| `BearingEncoder.Encoder.ReadRpm` | sensor-node/src/sensors/bearing_encoder.c:168-206 | a read collects exactly what is pending and returns the speed of the last five reads' edges over exactly their time; 0 if no interrupt counted since the start or the last that did is 100 ms old; with no time elapsed it returns 0 and changes nothing |
| `BearingEncoder.ReadingIsRight` | sensor-node/src/sensors/bearing_encoder.c:193-206 | over all histories, in numbers: 0 for a wheel at rest, else the integer nearest to counts times 60000000 over 128 times the window's time, halves away from zero, or the nearer end of 32 bits |
| `BearingEncoder.RpmIsSpeed` | sensor-node/src/sensors/bearing_encoder.c:56-76 | the same for the arithmetic alone, clamping included |
| `BearingEncoder.LastCountedIsLast` | sensor-node/src/sensors/bearing_encoder.c:106-119 | the time held is that of the last interrupt whose transition was not 0 |
| `BearingEncoder.Encoder.StoreInWindow` | sensor-node/src/sensors/bearing_encoder.c:185-191 | the rings hold the last five reads |
| `BearingEncoder.Encoder.SumWindow` | sensor-node/src/sensors/bearing_encoder.c:198-203 | the ring sums are what count and time grew by over the last min(5, k) reads |
| `BearingEncoder.RingSum` | sensor-node/src/sensors/bearing_encoder.c:185-203 | summing the used slots in slot order gives the growth of the total, wherever the ring has wrapped |
| `BearingEncoder.AfterEdge` | sensor-node/src/sensors/bearing_encoder.c:110-118 | an interrupt adds its transition to the total decoded and leaves what was collected as it is |
| `BearingEncoder.AfterRead` | sensor-node/src/sensors/bearing_encoder.c:179-186 | collected plus pending is everything decoded since the start, before and after every read |
| `BearingEncoder.DecodedFollowsGrayPosition` | sensor-node/src/sensors/bearing_encoder.c:43-54 | if no interrupt skipped a state, the total decoded is the change of Gray position modulo 4 |
| `BearingEncoder.RoundedIsNearest` | sensor-node/src/sensors/bearing_encoder.c:62-67 | the two-branch rounding gives a nearest integer, symmetrically in sign |
| `BearingEncoder.RpmFits` | sensor-node/src/sensors/bearing_encoder.c:56-76 | a speed fits 32 bits, has the sign of the count, and is within half an RPM of the exact quotient unless clamped |
| `BearingEncoder.RpmIsOdd` | sensor-node/src/sensors/bearing_encoder.c:56-76 | turning the other way gives the opposite speed |
| `BearingEncoder.NumeratorFits` | sensor-node/src/sensors/bearing_encoder.c:62-67 | five 32-bit counts cannot overflow the 64-bit numerator, rounding term included |
| `WheelSimulator.Simulator.NextInterval` | simulators/wheel-rpm/src/main.c:63-74 | interval times rate plus new accumulator is one minute plus the old accumulator: no fraction is lost |
| `WheelSimulator.Simulator.EdgeAlarm` | simulators/wheel-rpm/src/main.c:76-97 | after n edges the elapsed time is exactly floor(60000000 n / rate) and the state is n places along the Gray sequence |
| `WheelSimulator.Simulator.SetRpm` | simulators/wheel-rpm/src/main.c:135-149 | the speed is clamped, the fraction starts over, the position stays |
| `WheelSimulator.AccumulatorExact` | simulators/wheel-rpm/src/main.c:66-72 | a sum of n intervals with the accumulator left over is the n-th edge's exact offset |
| `WheelSpeed.EdgeOnTheWires` | simulators/wheel-rpm/src/main.c:76-97 | an alarm of the simulator followed by the node's interrupt keeps the node's history the simulated one, from whatever edge the encoder was started or the speed set |
| `WheelSpeed.StartOnTurningWheel` | sensor-node/src/sensors/bearing_encoder.c:149-166 | an encoder started while the wheel turns sees the same simulated edges, from the one the wheel has come to |
| `WheelSpeed.SetSpeedOnTheWires` | simulators/wheel-rpm/src/main.c:135-149 | a change of the simulated speed begins a new stretch of constant speed in the middle of the node's history |
| `WheelSpeed.WiresAreSeen` | simulators/wheel-rpm/src/main.c:56-61 | the encoder last saw the state the simulator has on the wires |
| `WheelSpeed.EdgeCountsBackward` | sensor-node/src/sensors/bearing_encoder.c:43-54 | the simulator's Gray order is the one the decoder counts down |
| `WheelSpeed.SimulatedDecoding` | sensor-node/src/sensors/bearing_encoder.c:106-119 | n simulated edges count minus n, times the direction, and the last edge is the n-th |
| `WheelSpeed.SpanOfEdges` | simulators/wheel-rpm/src/main.c:63-74 | any n consecutive edges take n counts' worth of time to within 1 us: floors do not add up |
| `WheelSpeed.ExactBetweenEdges` | sensor-node/src/sensors/bearing_encoder.c:56-76 | from edge to edge over at least 2r us, the speed is exactly minus the simulated one |
| `WheelSpeed.NearInAnyWindow` | sensor-node/src/sensors/bearing_encoder.c:56-76 | over any window T of at least 2r us it is within 60000000/(128 T) + 1 |
| `WheelSpeed.SpeedOfWindow` | sensor-node/src/sensors/bearing_encoder.c:168-206 | both bounds, for the count of edges that fall into a window placed anywhere |
| `WheelSpeed.NeverTakenForStopped` | sensor-node/src/sensors/bearing_encoder.c:78-82 | at 5 RPM or more no read takes the simulated wheel for stopped once there has been an edge at that speed; before the first edge since a start every read does |
| `WheelSpeed.ReadingOfSimulatedWheel` | sensor-node/src/sensors/bearing_encoder.c:168-206 | both bounds, for what a read of the node returns over any interleaving of simulated edges and reads, from the first read after a start on a turning wheel |
| `EngineSpeed.Sensor.Isr` | sensor-node/src/sensors/engine_rpm.c:48-71 | every edge advances the last-edge time; its capture is queued or counted as dropped |
| `EngineSpeed.Sensor.DiscardPending` | sensor-node/src/sensors/engine_rpm.c:118-127 | everything starts over, so no interval spans a discard |
| `EngineSpeed.Sensor.NextEvent` | sensor-node/src/sensors/engine_rpm.c:135-156 | the oldest queued capture as a spark event with its own edge's time, and as speed the floor of a minute over the gap to the edge before if that is 10 to 60 ms, else 0; a stop event exactly when both timeouts of 100 ms have passed |
| `EngineSpeed.Sensor.DroppedEvents` | sensor-node/src/sensors/engine_rpm.c:158-165 | reads and clears the counter; captures taken, queued, dropped and reported add up to the edges |
| `EngineSpeed.NonzeroExactlyInRange` | sensor-node/src/sensors/engine_rpm.c:54-60 | a speed is nonzero if and only if there is a previous edge and the gap is 10 to 60 ms; it is then 1000 to 6000 and the floor of a minute over the gap |
| `EngineSpeed.OverspeedNeverAliases` | sensor-node/src/sensors/engine_rpm.c:61-63 | a train whose gaps are all under 10 ms never gives a nonzero speed, whatever is dropped |
| `EngineSpeed.Simulator.SetRpm` | simulators/engine-rpm/src/main.c:42-63 | sets speed and period and lets the output go low |
| `EngineSpeed.Simulator.PulseAlarm` | simulators/engine-rpm/src/main.c:65-96 | the n-th rising edge comes exactly n periods after the first |
| `EngineSpeed.PeriodInverts` | simulators/engine-rpm/src/main.c:38-41 | two truncating divisions of a minute give the speed back, from 1000 to 4000 |
| `EngineSpeed.PulseOnTheWire` | simulators/engine-rpm/src/main.c:65-96 | an alarm of the simulator, an interrupt of the node if it raises the output, keeps the node's sparks the simulator's pulses |
| `EngineSpeed.SimulatedEngineIsExact` | sensor-node/src/sensors/engine_rpm.c:135-156 | the node reports exactly the simulated speed for every spark after the first since a discard, whatever pulse that was |
| `Sampler.OutputQueue.EnqueueLatest` | sensor-node/src/sampler/sampler.c:91-100 | the queue is an unbroken run of the samples offered, up to the newest, of at most 64; the newest is always in, and the oldest lost only when full |
| `Sampler.OutputQueue.Drain` | sensor-node/src/sampler/sampler.c:206 | samples leave at the front only |
| `Sampler.EngineQueue.EnqueueEngineEvent` | sensor-node/src/sampler/sampler.c:103-138 | an event is stored whole if and only if there is room for all of it, else not at all: a spark sample 0x0BC for a spark, a speed sample 0x0BB for a positive speed or for an event that is no spark |
| `Sampler.PairedAppend` | sensor-node/src/sampler/sampler.c:118-136 | storing whole events keeps every positive speed right behind its own spark |
| `Sampler.Schedule.Poll` | sensor-node/src/sampler/sampler.c:161-178 | the next time stays on the armed grid and passes now by at most one period, with at most one read per slot, however many were missed |
| `Sampler.Schedule.Arm` | sensor-node/src/sampler/sampler.c:46-52 | the grid starts at the moment of arming |

## Left out

- Floating point: coordinates and speed of the RMC sentence (`decimal`, `coordinate`) and brake pressure; whether telemetry is well formed is left to any predicate, and in `GpsReceiver` the parser is any function of the line.
- 64-bit overflow of timestamps, UTC and their products with the correction, and 32-bit wrap of the encoder's pending count and the engine's dropped counter: these are unbounded integers. Wrap-around of the logger's drop counter, record timestamps, checksums and the clock's 8-bit counter is modelled.
- stdio buffering and power loss: the count `fwrite` returns is what reaches a file, and the ignored `fflush` of the binary is outside the claim.
- DataLogger.Logger.Enqueue: the test of the state and the send to the queue are one step, and the UTC is part of the sample; a late send after the writer has closed is not modelled.
- DataLogger.Logger.Checkpoint: after a failed write the block is kept and may be written twice, as in the code; conservation is claimed while no binary write was short, the origin of every record while none ended inside a record, alignment always.
- DataLogger.Logger.Start: the choice of a default name, the rules for names and the removal of half-created files are one set of open outcomes.
- Renaming of recordings, filename validation and the clock of the file system.
- SessionProtocol.SelfStabilisesExactly: the receive queue is unbounded (a full one loses frames, which the bus may do anyway), and any number of state reports may be outstanding, where the node has two tasks that make them.
- AbsoluteClock.SharedClock.NowUtc: a task takes the uptime it asks about when it asks; one that is delayed between taking it and entering the critical section reads an earlier moment.
- RmcTime.ParseSentence: whether coordinates and speed that are present are well formed is any given predicate.
- CanTransmit.Transmitter.Send: the driver holds a frame until it is done with it, an unsuccessful wait is always a timeout, and a length without a pointer cannot be expressed.
- Bus-off recovery timing, error counters and throttled log messages.
- BearingEncoder.Encoder.Start: an edge between the reading of the clock and the reset of the counts is not distinguished from one before both.
- Sampler.EngineQueue.EnqueueEngineEvent: a reset of the queue between the two sends of one event is outside the claim, and the bench mode that prints samples is not modelled.
- Sampler.Schedule.Poll: periods are positive; the engine sensor, whose period is 0, takes the event path. How long the task sleeps between passes is not modelled.
- EngineSpeed.Simulator.SetRpm: only the speeds its command accepts; sweeps and consoles of both simulators are not modelled.
- UbxConfig.WaitForAck: the deadline is the end of the byte stream read; the order of commands and retries is not modelled.
- CSV text: a row is a tuple of values, blank cells are absent values, and only the Powertrain export is modelled.
- Wi-Fi, HTTP, JSON, the web page, live data, the node registry, serial consoles and peripheral set-up: they would add only easy members.
- The conversion of a node's timestamps to master time, and of a sample's timestamp to UTC (`gps_time_sample_utc`).
