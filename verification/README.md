# On-board services: a verified model

This project models the telemetry and telecommand core of a PUS-C implementation (ECSS-E-ST-70-41C) and proves what
its parts promise, on all inputs and over whole runs. Code that updates state is modelled by classes and methods with
loops; each method is proved against a specification function, and the lemmas are about those functions.

| module | what it holds |
|---|---|
| `Bits`, `BitStream`, `Division`, `Sets`, `Gf2` | numbers as bit strings, big-endian streams, small facts, polynomials over GF(2) |
| `Errors` | the error codes the services report |
| `Crc`, `CrcPeriod`, `CrcVectors` | the CRC-16 of Annex B: remainder, detection of bursts, of odd errors, and of up to three flipped bits; compliance vectors |
| `Messages`, `ServicePools` | the message buffer with its bit and byte cursors; sequence and type counters |
| `Parser` | packet composition and parsing, nested telecommands |
| `Calendar`, `TimeStamps` | date plus duration, the 32-bit tick counter, conversion between both |
| `Housekeeping` | the periodic report scheduler |
| `Schedule`, `ScheduleEdits`, `Scheduling`, `ScheduleRuns` | the time-based schedule: its laws, requests by id, the service with its reports, whole runs |
| `Windows`, `PacketStores`, `StoreEffects`, `StorageAndRetrieval`, `StoreReports` | time windows, packet stores over whole runs, what each request makes of them, the service, its reports |
| `ForwardConfig`, `ForwardEffects`, `ForwardInvariant`, `ForwardReport`, `ForwardRuns`, `ForwardControl` | the forwarding configuration: nested requests and what they do, invariant, report, whole runs, the service |
| `LargePackets` | splitting a message and putting it together again |
| `Monitoring`, `Statistics` | repetition counting of parameter checks, running statistics |

The services' handlers take the time as an argument, read a `Message` object and append what they report to its `errors`
field, in order. A handler reads the clock once. Where several handlers of the source repeat the same loop, the model
has the loop once (`StorageAndRetrieval.StorageAndRetrievalService.Perform` and `ExecuteOnPacketStores`).

## Results that differ from what the code suggests

- `parse` rejects every packet `compose` builds: the two disagree about the length field (`Parser.ComposedRejected`).
  Header and body survive when the length is the one `parse` wants (`Parser.FrameRoundTrip`).
- A composed telecommand carries its application id where the parser reads the source id, so nested telecommands come
  back with another source id (`Parser.NestedRoundTrip`, `Scheduling.DetailReportReplays`).
- Adding a duration to a date in March or later can be a day off; `repair` does not carry a sixtieth second, and carries
  a day at most once (`Calendar.PlusSeconds`, `Calendar.PlusValidDays` give the exact conditions, `Calendar.LeapDayMissed`,
  `Calendar.SixtiethSecond`, `Calendar.ThirtiethOfFebruary` concrete dates).
- A housekeeping call that comes early reports the multiple it was called for, and the call at its time reports it again
  (`Housekeeping.EarlyCallDoubles`). `Housekeeping.StepReports` and `Housekeeping.RunReports` say exactly which calls do.
- Shifting the schedule keeps its order exactly when the first and the last activity wrap alike (`Schedule.ShiftOrder`),
  so a run keeps it throughout exactly when each of its shifts does (`Schedule.OrderedExactly`); two requests that leave it
  unordered are in `ScheduleRuns.UnorderedReached`. A shift to before the epoch, however far, is accepted when its wrapped
  time reaches the limit (`Schedule.ShiftBeforeEpoch`, `Schedule.EarlyShiftAccepted`).
- In the last minute of the tick counter the limit "now plus 60 seconds" wraps as well (`Schedule.LimitExact`).
- Adding all report types of a service looks for no duplicates; it keeps the configuration's invariant exactly when there
  is no entry yet (`ForwardInvariant.AddAllExact`, `ForwardInvariant.AddAppsExactKeys`).
- Deleting a report type from a list that has it twice need not take out both (`ForwardEffects.ErasedLength`,
  `ForwardEffects.DuplicateStays`).
- Lists of up to eighteen report types always fit one report (`ForwardReport.ShortListsFit`), but repeated requests for all
  types of a service fill lists of twenty, and then the report is twelve bytes too long (`ForwardRuns.LongReport`). Of such
  a report every byte past the end of the message is reported as an error
  (`ForwardControl.RealTimeForwardingControlService.AppProcessConfigurationContentReport`).
- A message of less than 256 bytes is split into two parts that are both numbered 0 (`LargePackets.SmallMessage`).
- The release of scheduled activities does not consult the execution function status: the contract of
  `Scheduling.TimeBasedSchedulingService.ExecuteScheduledActivity` holds for either status.
- A value with digits above its announced width changes bits that were appended before it, within the started byte
  (`Messages.Message.AppendBits`, `BitStream.SmearedExactly`, `BitStream.OverwideValue`).
- The sample counter of a statistic wraps after 65536 samples. From then on the mean is that of the samples since the wrap,
  while the sum of squares is that of all, and the deviation is too large (`Statistics.Statistic.SquaredDeviation`).

## Model

| member | source | states |
|---|---|---|
| Crc.CrcIsRemainder | src/Helpers/CRCHelper.cpp:4-24 | the register after all bytes is congruent, modulo x^16+x^12+x^5+1 over GF(2), to the dividend 0xFFFF·x^(8n) + M(x)·x^16 of Annex B |
| Crc.PresetCancelled | src/Helpers/CRCHelper.cpp:5-6 | two leading bytes of ones cancel the preset of the register: what is left for the rest of the message is its plain remainder, without preset |
| CrcVectors.ZeroVectors | test/Helpers/CRCHelperTests.cpp:13-21 | the compliance vectors 00 00 and 00 00 00 of Annex B |
| CrcVectors.FourByteVector | test/Helpers/CRCHelperTests.cpp:15-22 | the compliance vector AB CD EF 01 |
| CrcVectors.SixByteVector | test/Helpers/CRCHelperTests.cpp:16-23 | the compliance vector 14 56 F8 9A 00 01 |
| Crc.CrcCharacterised | src/Helpers/CRCHelper.cpp:4-24 | a 16-bit value is the CRC of a message if and only if it is congruent to that dividend |
| Crc.EqualCrc | src/Helpers/CRCHelper.cpp:4-24 | two messages of one length have the same CRC exactly when their difference is a multiple of the generator |
| Crc.BurstDetected | src/Helpers/CRCHelper.cpp:8-29 | different messages whose differing bits lie in one window of 16 bits, at any alignment and with any common tail, have different CRCs |
| Crc.OddErrorsDetected | src/Helpers/CRCHelper.cpp:8-29 | flipping any odd number of bits changes the CRC |
| CrcPeriod.OneExactly | src/Helpers/CRCHelper.cpp:8-23 | x has order 32767 modulo the generator: x^k leaves the remainder one if and only if 32767 divides k |
| CrcPeriod.TwoFlippedBits | src/Helpers/CRCHelper.cpp:8-29 | two flipped bits, in a frame of any length, leave the CRC the same if and only if a multiple of 32767 bits lies between them |
| CrcPeriod.DistanceExact | src/Helpers/CRCHelper.cpp:4-24 | the difference polynomial of two messages has exactly one term for each differing bit |
| CrcPeriod.TwoErrorsDetected | src/Helpers/CRCHelper.cpp:8-29 | in a frame of at most 32767 bits any two flipped bits change the CRC |
| CrcPeriod.ThreeErrorsDetected | src/Helpers/CRCHelper.cpp:8-29 | in such a frame any one, two or three flipped bits change the CRC |
| Crc.ValidFrame | src/Helpers/CRCHelper.cpp:26-29 | a frame checks to zero if and only if its last two bytes are the CRC of the rest |
| Crc.CorruptedFrameRejected | src/Helpers/CRCHelper.cpp:26-29 | a valid frame hit by a burst of at most 16 bits no longer checks to zero |
| Crc.CalculateCrc | src/Helpers/CRCHelper.cpp:4-24 | the two nested loops compute the specified remainder of the first `length` bytes |
| Crc.ValidateCrc | src/Helpers/CRCHelper.cpp:26-29 | the check value is the CRC of the whole frame, zero exactly on frames that end with their own CRC |
| Messages.Message.AppendBits | src/Message.cpp:15-47 | the value's bits extend the big-endian stream up to the end of the buffer, and everything past the cursor stays zero; what digits above the width do to the bits before the cursor (nothing, for a value that fits); the error cases |
| Messages.Message.ReadBits | src/Message.cpp:107-139 | the next bits of the stream as a number, where the cursor ends, and the two error cases |
| Messages.BitStreamRoundTrip | src/Message.cpp:15-47 | any list of fields of at most 16 bits that fits the buffer, appended and read back under any partition into widths, gives the slices of one bit sequence; under the same widths, the same values |
| BitStream.SmearedExactly | src/Message.cpp:27-43 | a value changes bits appended before it if and only if a digit above its width stands over a zero of the started byte |
| BitStream.OverwideValue | src/Message.cpp:27-43 | the value 2 in one bit, after a zero bit, turns that bit into a one |
| BitStream.SameWidthsSameValues | src/Message.cpp:107-139 | slicing the stream of a list of fields with their own widths returns their values |
| Messages.Message.Finalize | src/Message.cpp:49-60 | pads to a byte boundary with zero bits, keeps the data, and for telemetry only takes a 14-bit sequence count and the type's counter, which moves on alone |
| Messages.Message.AppendByte | src/Message.cpp:62-73 | one byte at the end, or the right report and nothing written |
| Messages.Message.AppendHalfword | src/Message.cpp:75-88 | two big-endian bytes at the end, or the right report and nothing written |
| Messages.Message.AppendWord | src/Message.cpp:90-105 | four big-endian bytes at the end, or the right report and nothing written |
| Messages.Message.AppendedIsWritten | src/Message.cpp:62-105 | bytes appended at a byte boundary extend the same bit stream the bit operations write |
| Messages.Message.AppendString | src/Message.cpp:216-227 | the whole string at the end, or nothing |
| Messages.Message.AppendOctetString | src/Message.cpp:239-252 | length and string at the end, or nothing and the right report; in the middle of a byte the length is refused and the string written |
| Messages.Message.ReadHalfword | src/Message.cpp:153-163 | the big-endian value at the cursor, or zero, a report and an unmoved cursor |
| Messages.Message.ReadWord | src/Message.cpp:165-176 | the big-endian value at the cursor, or zero, a report and an unmoved cursor |
| Messages.Message.ReadString | src/Message.cpp:190-200 | the next bytes, with the rest of the target unchanged; nothing moves when the string does not fit |
| Messages.Message.ReadOctetString | inc/Message.hpp:619-635 | the string of the announced length, or an empty one with the cursor behind the length |
| Messages.Message.SkipBytes | inc/Message.hpp:659-661 | the cursor moves on, unchecked, modulo 2^16 |
| Messages.Message.ResetRead | src/Message.cpp:207-210 | reading starts at the first bit again |
| Messages.ReadsExactly | src/Message.cpp:141-176 | one, two and four bytes are read most significant first; a read past the end gives zero, moves nothing and is reported |
| Messages.ReadsString | src/Message.cpp:190-200 | a string of less than 256 bytes that fits is read, any other is refused with its own report |
| Messages.SignedRoundTrip | inc/Message.hpp:552-555 | a signed number of 64 bits reads back from its two words of two's complement |
| ServicePools.CountIsModular | src/ServicePool.cpp:21-30 | the sequence count of the n-th packet is n modulo 2^14, so it stays below 2^14 forever |
| ServicePools.CountsDistinct | src/ServicePool.cpp:21-30 | two packets carry the same count only when a multiple of 2^14 packets lies between them |
| ServicePools.TypeKeyInjective | src/ServicePool.cpp:16-19 | different pairs of service and message type have different counters |
| ServicePools.CounterIsOccurrences | src/ServicePool.cpp:16-19 | over every run of telemetry the counter of a kind is the number of its messages, modulo 2^16 |
| ServicePools.ServicePool.GetAndUpdateMessageTypeCounter | src/ServicePool.cpp:16-19 | returns and increments, modulo 2^16, the pair's own counter and no other |
| Parser.ComposeEcss | src/MessageParser.cpp:179-223 | header, body and zero padding; a report exactly when a nested message is too large |
| Parser.Compose | src/MessageParser.cpp:225-266 | the frame with its CRC; never longer than 1043 bytes, and its CRC check is zero |
| Parser.ComposedValid | src/MessageParser.cpp:225-266 | every composed packet checks to zero |
| Parser.ComposedLength | src/MessageParser.cpp:225-266 | the length of a composed packet, at most 1043 bytes |
| Parser.TcLayout | src/MessageParser.cpp:179-223 | every byte of a composed telecommand |
| Parser.TmLayout | src/MessageParser.cpp:179-223 | every byte of composed telemetry: type counter, application id and time, most significant bytes first |
| Parser.HeaderRoundTrip | src/MessageParser.cpp:103-113 | extracting the fields of a written primary header gives version 0, type, secondary header flag, application id, flags 3, count and length |
| Parser.PrimaryLayout | src/MessageParser.cpp:225-260 | every byte of a written primary header with a legal id and count |
| Parser.AcceptableExact | src/MessageParser.cpp:103-130 | a primary header is accepted if and only if version, secondary header flag, sequence flags and length are right |
| Parser.RightVersionExact | src/MessageParser.cpp:142-160 | the version check of the secondary header is on its upper four bits |
| Parser.ComposedRejected | src/MessageParser.cpp:115-130 | parsing a composed packet always yields the default message |
| Parser.FrameRoundTrip | src/MessageParser.cpp:97-140 | header and body survive composing and parsing when the length field is the one the parser expects |
| Parser.NestedRoundTrip | src/MessageParser.cpp:142-223 | composing a telecommand to 64 bytes and parsing it keeps type and zero-padded body; the source id becomes the application id written |
| Parser.SlotReemitted | src/MessageParser.cpp:172-223 | parsing a 64-byte slot and composing it again changes bytes 0, 3 and 4 only |
| Parser.Parse | src/MessageParser.cpp:97-140 | the message of an acceptable packet, a default one otherwise |
| Parser.ParseEcssTc | src/MessageParser.cpp:172-177 | the telecommand in a stored slot |
| Calendar.EarlierIsFewerSeconds | src/Time/UTCTimestamp.cpp:25-66 | comparing valid dates field by field is comparing their second counts |
| Calendar.SecondsDetermine | src/Time/UTCTimestamp.cpp:106-126 | a valid date is determined by its second count |
| Calendar.DaysBeforeMonthClosed | inc/Time/Time.hpp:79 | the month lengths in closed form |
| Calendar.SecondsClosed | inc/Time/Time.hpp:74-79 | the second count of a date in closed form, from its fields alone |
| Calendar.PlusFromNewYear | inc/Time/UTCTimestamp.hpp:53-93 | from the first second of a year, the sum is a valid date exactly that many seconds later, and `repair` changes nothing |
| Calendar.PlusSeconds | inc/Time/UTCTimestamp.hpp:53-93 | the total second count grows by the duration; from March on it is off by exactly leap(year reached by the year loop) − leap(start year) days |
| Calendar.PlusValid | src/Time/UTCTimestamp.cpp:135-164 | exactly when the sum is a valid date |
| Calendar.PlusValidDays | src/Time/UTCTimestamp.cpp:135-164 | the same over the arguments: the seconds do not add up to 60, and the start day with the whole days left runs no further than the end of the month after the one reached |
| Calendar.MonthReachedIs | inc/Time/UTCTimestamp.hpp:62-81 | the month reached and the seconds left are determined by the calendar: whole years from the start year, then on from the start month |
| Calendar.PlusFits | inc/Time/UTCTimestamp.hpp:62-81 | as long as the year stays in 16 bits, the wrapping counter changes nothing |
| Calendar.YearWraps | inc/Time/UTCTimestamp.hpp:64-67 | behind the last year of the 16-bit counter comes the year 0 |
| Calendar.PlusValidEarlyDays | src/Time/UTCTimestamp.cpp:135-164 | from one of the first 28 days only the uncarried sixtieth second can go wrong |
| Calendar.SixtiethSecond | src/Time/UTCTimestamp.cpp:135-141 | a sum that reads 00:00:60 |
| Calendar.ThirtiethOfFebruary | src/Time/UTCTimestamp.cpp:150-164 | a sum that reads 30 February |
| Calendar.LeapDayMissed | inc/Time/UTCTimestamp.hpp:64-67 | a sum that is one day late |
| Calendar.UTCTimestamp.Add | inc/Time/UTCTimestamp.hpp:53-93 | the year loop, the month loop, the carries and the repair leave the specified date, on a year counter of 16 bits; a negative duration is refused |
| Calendar.UTCTimestamp.Repair | src/Time/UTCTimestamp.cpp:135-164 | one carry per field, as specified |
| TimeStamps.ShiftedIsSum | inc/Time/TimeStamp.hpp:248-256 | both branches shift the counter by ten ticks a second modulo 2^32 |
| TimeStamps.ShiftBack | inc/Time/TimeStamp.hpp:248-273 | shifting back undoes a shift, even across a wrap |
| TimeStamps.ElapsedExact | inc/Time/TimeStamp.tpp:80-93 | the seconds counted from a date are its true distance to the epoch exactly for dates from 2020 on |
| TimeStamps.UnixDistance | inc/Time/Time.hpp:115 | the constant distance between the Unix epoch and the epoch of the system is right |
| TimeStamps.UtcRoundTrip | inc/Time/TimeStamp.tpp:66-100 | every valid date the counter can hold survives the conversion there and back |
| TimeStamps.TicksRoundTrip | inc/Time/TimeStamp.tpp:144-150 | a counter value survives the conversion but for its fraction of a second |
| Housekeeping.ReportedOnce | src/Services/HousekeepingService.cpp:271-287 | a call reports each structure that is enabled and due once, and no other |
| Housekeeping.ReportedExact | src/Services/HousekeepingService.cpp:271-287 | which structures a call reports, in terms of their fields |
| Housekeeping.DelayIsLeastDistance | src/Services/HousekeepingService.cpp:269-295 | the returned delay is the least positive distance to a multiple of any enabled interval |
| Housekeeping.ZeroInterval | src/Services/HousekeepingService.cpp:274-278 | a structure with interval zero is reported by every call, and the delay is zero |
| Housekeeping.NoneEnabled | src/Services/HousekeepingService.cpp:268-273 | without an enabled structure nothing is reported, and the delay is the longest |
| Housekeeping.StepReports | src/Services/HousekeepingService.cpp:268-296 | for every call, early or late: it reports no more than the multiples passed since the call before if and only if it is not early, at time 0, or neither it nor the expected time is a multiple; and exactly as many if and only if it is on time or, when early, quiet |
| Housekeeping.OnTimeCounts | src/Services/HousekeepingService.cpp:279-287 | on time means that no multiple was passed since the expected time, save the call's own when none was expected; counted in multiples |
| Housekeeping.RunReports | src/Services/HousekeepingService.cpp:268-296 | over every run forward in time: no stretch has more reports than multiples if and only if every early call is quiet; reports and multiples agree on every stretch if and only if every call is quiet when early and on time otherwise |
| Housekeeping.PunctualRun | src/Services/HousekeepingService.cpp:268-296 | calls made when due report every multiple of every enabled interval once |
| Housekeeping.EarlyCallDoubles | src/Services/HousekeepingService.cpp:279-287 | whenever a call comes early and a multiple was expected, that multiple is reported by it and again at its time |
| Housekeeping.EarlyCallExample | src/Services/HousekeepingService.cpp:279-287 | such a run: interval 10, calls at 5, 7 and 10 |
| Housekeeping.HousekeepingService.ReportPendingStructures | src/Services/HousekeepingService.cpp:267-296 | the loop reports what is due in key order and returns the specified delay |
| Schedule.SortedCorrect | inc/Services/TimeBasedSchedulingService.hpp:103-109 | sorting orders by release time, keeps the activities, and keeps the order within one release time |
| Schedule.InsertFraming | src/Services/TimeBasedSchedulingService.cpp:53-78 | where a fitting insertion ends depends on its count alone, not on what was accepted |
| Schedule.InsertErrorsExact | src/Services/TimeBasedSchedulingService.cpp:59-61 | a fitting insertion reports one error for each instruction it does not accept, and nothing else |
| Schedule.LimitExact | src/Services/TimeBasedSchedulingService.cpp:59-61 | the limit is now plus 60 seconds modulo 2^32 ticks, and exactly that before the last minute of the counter |
| Schedule.AcceptedBounds | src/Services/TimeBasedSchedulingService.cpp:59-77 | accepted activities fit the room left, reach the limit (now plus 60 seconds, before the last minute of the counter), and carry the request's id |
| Schedule.ReleaseExact | src/Services/TimeBasedSchedulingService.cpp:10-23 | repeated calls at one time release exactly the due activities, one a call, in release order, none early |
| Schedule.ShiftAllSafe | src/Services/TimeBasedSchedulingService.cpp:88-103 | without wrap, checking the earliest activity is checking all; accepted, all move alike and reach the limit (now plus 60 seconds, before the last minute of the counter); rejected, nothing moves |
| Schedule.ShiftRestores | src/Services/TimeBasedSchedulingService.cpp:101-103 | a shift and its opposite restore the schedule |
| Schedule.ShiftOrder | src/Services/TimeBasedSchedulingService.cpp:101-103 | a shifted schedule is ordered if and only if its first and last activity wrap alike |
| Schedule.EvenShiftSafe | src/Services/TimeBasedSchedulingService.cpp:88-103 | when first and last activity wrap alike, a shift is accepted if and only if every stored time reaches the limit |
| Schedule.ShiftBeforeEpoch | src/Services/TimeBasedSchedulingService.cpp:97-100 | a shift to before the epoch, however far, is accepted exactly when the time it wraps to reaches the limit |
| Schedule.UnevenShift | src/Services/TimeBasedSchedulingService.cpp:88-103 | activities at 1000 and 2^32-100 ticks, shifted by 20 seconds at time 0, are accepted at 1200 and 100: out of order, and one below the limit of 600 |
| Schedule.EarlyShiftAccepted | src/Services/TimeBasedSchedulingService.cpp:97-100 | an activity at tick 1000, shifted back by 200 seconds, is accepted at a time near the end of the counter |
| Schedule.StepOrdered | src/Services/TimeBasedSchedulingService.cpp:10-163 | a step keeps the schedule ordered if and only if it is not a shift that wraps part of it |
| Schedule.ReachableOrdered | src/Services/TimeBasedSchedulingService.cpp:10-163 | in every reachable state the schedule is ordered, as long as no shift wraps part of it |
| Schedule.OrderedExactly | src/Services/TimeBasedSchedulingService.cpp:10-163 | the schedule is ordered in all states of a run if and only if none of its shifts wraps part of it |
| ScheduleRuns.NeverEarly | src/Services/TimeBasedSchedulingService.cpp:10-163 | in a run whose shifts wrap no part of the schedule, the release time of what is released has come, and the limit of the insertion or shift that gave it that time is past: 60 seconds, before the last minute of the counter |
| ScheduleRuns.UnorderedReached | src/Services/TimeBasedSchedulingService.cpp:53-103 | one insertion and one accepted shift reach an unordered schedule |
| Schedule.Conservation | src/Services/TimeBasedSchedulingService.cpp:10-163 | over every run, the accepted activities are the pending, released, deleted and cleared ones, each once; never more than ten are pending |
| ScheduleEdits.ReadIdExact | src/Services/TimeBasedSchedulingService.cpp:117-119 | a request id is source, application and sequence count, two bytes each |
| ScheduleEdits.ShiftOne | src/Services/TimeBasedSchedulingService.cpp:112-134 | the first activity with the id gets its time plus the offset when that reaches the limit; otherwise nothing changes and one error is reported |
| ScheduleEdits.ShiftMany | src/Services/TimeBasedSchedulingService.cpp:112-134 | a request with distinct ids shifts exactly the first activity of each id whose new time reaches the limit, and no other |
| ScheduleEdits.ShiftLast | src/Services/TimeBasedSchedulingService.cpp:112-134 | any list of ids is worked off one by one, in the order of the request |
| ScheduleEdits.ShiftRequest | src/Services/TimeBasedSchedulingService.cpp:106-138 | the whole request: those activities shifted, and then all in order of release time |
| ScheduleEdits.DeleteOne | src/Services/TimeBasedSchedulingService.cpp:140-163 | the first activity with the id goes; when there is none, one error is reported |
| ScheduleEdits.DeleteLast | src/Services/TimeBasedSchedulingService.cpp:140-163 | any list of ids is worked off one by one, in the order of the request |
| ScheduleEdits.MatchOne | src/Services/TimeBasedSchedulingService.cpp:185-214 | a report takes up the first activity with the id, or one error is reported |
| ScheduleEdits.MatchLast | src/Services/TimeBasedSchedulingService.cpp:185-214 | ids are looked up in the order of the request |
| Scheduling.TimeBasedSchedulingService.ExecuteScheduledActivity | src/Services/TimeBasedSchedulingService.cpp:10-23 | releases the first activity when due, executes it only for this application, and returns the next release time |
| Scheduling.TimeBasedSchedulingService.ResetSchedule | src/Services/TimeBasedSchedulingService.cpp:39-46 | clears the schedule and switches the execution function off |
| Scheduling.TimeBasedSchedulingService.InsertActivities | src/Services/TimeBasedSchedulingService.cpp:48-81 | the new schedule, the read position and the reports of a whole insertion |
| Scheduling.TimeBasedSchedulingService.TimeShiftAllActivities | src/Services/TimeBasedSchedulingService.cpp:83-104 | the new schedule, the read position and the reports: all are shifted, or none with a report |
| Scheduling.TimeBasedSchedulingService.TimeShiftActivitiesById | src/Services/TimeBasedSchedulingService.cpp:106-138 | shifts the first match of each id that stays late enough, then sorts; the reports for the others; for distinct ids the result over the bytes of the request alone |
| Scheduling.TimeBasedSchedulingService.DeleteActivitiesById | src/Services/TimeBasedSchedulingService.cpp:140-163 | deletes the first match of each id; the reports for the others |
| Scheduling.TimeBasedSchedulingService.DetailReportActivitiesById | src/Services/TimeBasedSchedulingService.cpp:185-214 | one report about the sorted matches, the read position and the reports about ids without a match |
| Scheduling.TimeBasedSchedulingService.SummaryReportActivitiesById | src/Services/TimeBasedSchedulingService.cpp:216-259 | one report about the sorted matches, the read position and the reports about ids without a match |
| Scheduling.TimeBasedSchedulingService.DetailReport | src/Services/TimeBasedSchedulingService.cpp:173-183 | the report's header fields and bytes, without loss for any legal schedule |
| Scheduling.DetailReemits | src/Services/TimeBasedSchedulingService.cpp:173-183 | the report repeats every inserted 64-byte slot in schedule order, except bytes 0, 3 and 4 |
| Scheduling.DetailReportReplays | src/Services/TimeBasedSchedulingService.cpp:48-81 | entering a detail report into an empty schedule as an insertion restores the same requests at the same times in the same order, but for the source ids |
| Scheduling.ReportedInOrder | src/Services/TimeBasedSchedulingService.cpp:185-214 | a report by id is about the matches of its ids, in order of release time |
| Scheduling.SummaryLayout | src/Services/TimeBasedSchedulingService.cpp:216-228 | every byte of a summary report |
| Windows.CopyExact | src/Services/StorageAndRetrievalService.cpp:28-36 | the copy loop, with its `continue` and `break`, equals the filter if and only if no packet of the window stands behind one that ends the loop |
| Windows.CopyIsFilter | src/Services/StorageAndRetrievalService.cpp:17-73 | on a store in time order the copy is exactly the packets of the window, in order |
| Windows.RefusedCopyIsEmpty | src/Services/StorageAndRetrievalService.cpp:103-125 | a copy refused for having no timestamp in its window would have copied nothing |
| Windows.AcceptedCopyIsEmpty | src/Services/StorageAndRetrievalService.cpp:103-125 | an accepted copy copies nothing if and only if its two-ended window falls into a gap |
| Windows.CopiesPartition | src/Services/StorageAndRetrievalService.cpp:39-73 | copying up to T and from T plus one tick partitions a store |
| Windows.DeleteExact | src/Services/StorageAndRetrievalService.cpp:9-15 | deleting until a time keeps exactly the later packets if and only if no later one shields an earlier one behind it |
| Windows.DeleteKeepsLater | src/Services/StorageAndRetrievalService.cpp:9-15 | on a store in time order exactly the later packets stay |
| PacketStores.InstructionsFraming | src/Services/StorageAndRetrievalService.cpp:174-195 | where the instructions of a fitting request end depends on their number alone, not on refusals |
| PacketStores.ActedEffect | src/Services/StorageAndRetrievalService.cpp:295-492 | acting on a store keeps it valid and in time order, and refuses what a retrieval forbids |
| StoreEffects.RequestDone | src/Services/StorageAndRetrievalService.cpp:228-492 | what each of TC[15,1], [15,2], [15,11], [15,14], [15,15], [15,16] and [15,17] makes of every store it acts on, all or the listed ones, and that nothing else changes |
| StoreEffects.ListedReport | src/Services/StorageAndRetrievalService.cpp:228-492 | which listed ids are reported, and how |
| StoreEffects.LastInstruction | src/Services/StorageAndRetrievalService.cpp:228-247 | the instructions of a request are worked off one by one, in the order of the request |
| StoreEffects.StartOne | src/Services/StorageAndRetrievalService.cpp:265-293 | an instruction to start a by-time-range retrieval: store, position and report for every case |
| StoreEffects.DeleteOne | src/Services/StorageAndRetrievalService.cpp:588-613 | an instruction to delete a store, for every case |
| StoreEffects.DeleteEvery | src/Services/StorageAndRetrievalService.cpp:555-586 | a request to delete all stores leaves exactly those that are storing or retrieved |
| StoreEffects.ResizeOne | src/Services/StorageAndRetrievalService.cpp:655-691 | an instruction to resize a store, for every case |
| StoreEffects.CreateOne | src/Services/StorageAndRetrievalService.cpp:511-548 | an instruction to create a store, for every case |
| StoreEffects.CreateFirst | src/Services/StorageAndRetrievalService.cpp:511-548 | stores are created one by one; the first instruction that finds four stores ends the request |
| StoreEffects.SingleRequests | src/Services/StorageAndRetrievalService.cpp:693-781 | type and virtual channel change exactly when the store exists, the channel is legal and the store is not busy with what forbids it |
| StoreEffects.CopyRequest | src/Services/StorageAndRetrievalService.cpp:633-653 | a copy request fills the empty target with exactly the packets whose times are in its window, and changes nothing else |
| StoreReports.CopyRequestRead | src/Services/StorageAndRetrievalService.cpp:633-653 | where a copy request of each type ends and what it reports |
| StoreReports.RequestReports | src/Services/StorageAndRetrievalService.cpp:228-247 | a request about all stores ends behind its count, and reports in the order of the ids |
| StoreReports.ReportsOfAll | src/Services/StorageAndRetrievalService.cpp:295-492 | what a request about all stores reports for each of them |
| StoreReports.InIdOrder | src/Services/StorageAndRetrievalService.cpp:231-236 | of two ids the one with the smaller signed character at the first difference comes first |
| PacketStores.HandledSafe | src/Services/StorageAndRetrievalService.cpp:249-781 | every request keeps every store valid and in time order, and leaves alone what a storing or retrieved store needs |
| PacketStores.ReachableValid | src/Services/StorageAndRetrievalService.cpp:249-781 | in every reachable state: at most four stores, open and by-time-range retrieval never together, enabled ranges with start before end, channels 1 to 10 |
| PacketStores.StepProtects | src/Services/StorageAndRetrievalService.cpp:550-781 | no step deletes, resizes or retypes a store that is storing or retrieved, nor takes packets, channel, start tag or range from a retrieved one |
| PacketStores.ReachableOrdered | src/Services/StorageAndRetrievalService.cpp:202-206 | when telemetry is stored in time order, all stores stay in time order through copies and deletions |
| StorageAndRetrieval.StorageAndRetrievalService.DeleteContentUntil | src/Services/StorageAndRetrievalService.cpp:9-15 | the loop leaves the specified packets, and no other field or store changes |
| StorageAndRetrieval.StorageAndRetrievalService.ExecuteOnPacketStores | src/Services/StorageAndRetrievalService.cpp:228-247 | acts on all stores for a count of zero, on the listed ones otherwise; read position and reports, those about all stores in the order of their ids |
| StorageAndRetrieval.OrderUnique | src/Services/StorageAndRetrievalService.cpp:231-236 | the order of the ids is determined by the set of stores |
| StorageAndRetrieval.StorageAndRetrievalService.ActOnAll | src/Services/StorageAndRetrievalService.cpp:231-236 | every store is acted on once, in the order of the ids, and every refusal reported |
| StorageAndRetrieval.StorageAndRetrievalService.DeleteAll | src/Services/StorageAndRetrievalService.cpp:555-586 | the deletable stores go, and every refusal is reported in the order of the ids |
| StorageAndRetrieval.StorageAndRetrievalService.SetStorageFunction | src/Services/StorageAndRetrievalService.cpp:249-263 | stores, as the step of a run makes them, read position and reports after enabling or disabling storage |
| StorageAndRetrieval.StorageAndRetrievalService.ControlRetrieval | src/Services/StorageAndRetrievalService.cpp:417-492 | stores, as the step of a run makes them, read position and reports after a resume, suspend or abort request |
| StorageAndRetrieval.StorageAndRetrievalService.StartByTimeRangeRetrieval | src/Services/StorageAndRetrievalService.cpp:265-293 | stores, as the step of a run makes them, read position and reports after all instructions, with the skip after a refusal |
| StorageAndRetrieval.StorageAndRetrievalService.DeletePacketStoreContent | src/Services/StorageAndRetrievalService.cpp:295-337 | stores, as the step of a run makes them, read position and reports after deleting content until a time |
| StorageAndRetrieval.StorageAndRetrievalService.ChangeOpenRetrievalStartTimeTag | src/Services/StorageAndRetrievalService.cpp:380-415 | stores, as the step of a run makes them, read position and reports after changing start tags |
| StorageAndRetrieval.StorageAndRetrievalService.CreatePacketStores | src/Services/StorageAndRetrievalService.cpp:511-548 | stores, as the step of a run makes them, read position and reports; a full service ends the request |
| StorageAndRetrieval.StorageAndRetrievalService.DeletePacketStores | src/Services/StorageAndRetrievalService.cpp:550-613 | exactly the stores that are neither storing nor retrieved go, of all or of the listed; the step of a run, read position and reports |
| StorageAndRetrieval.StorageAndRetrievalService.ResizePacketStores | src/Services/StorageAndRetrievalService.cpp:655-691 | stores, as the step of a run makes them, read position and reports after all instructions |
| StorageAndRetrieval.StorageAndRetrievalService.ChangeType | src/Services/StorageAndRetrievalService.cpp:693-751 | the new type or the right report |
| StorageAndRetrieval.StorageAndRetrievalService.ChangeVirtualChannel | src/Services/StorageAndRetrievalService.cpp:753-781 | the new channel or the right report |
| StorageAndRetrieval.StorageAndRetrievalService.CopyFromTagToTag | src/Services/StorageAndRetrievalService.cpp:17-37 | the loop fills the empty target with the specified copy, or reports why not |
| StorageAndRetrieval.StorageAndRetrievalService.CopyAfterTimeTag | src/Services/StorageAndRetrievalService.cpp:39-55 | likewise for the window without end |
| StorageAndRetrieval.StorageAndRetrievalService.CopyBeforeTimeTag | src/Services/StorageAndRetrievalService.cpp:57-73 | likewise for the window without start |
| StorageAndRetrieval.StorageAndRetrievalService.CopyPacketsInTimeWindow | src/Services/StorageAndRetrievalService.cpp:633-653 | stores, read position and reports after a copy request of any type |
| ForwardConfig.AppsPosition | src/Services/RealTimeForwardingControlService.cpp:104-277 | for requests that fit, the read position after each block follows from the request's counts alone, for adding and deleting, whatever is refused |
| ForwardEffects.AddReportsExact | src/Services/RealTimeForwardingControlService.cpp:136-145 | an entry holds the types it had and the listed ones, in order of first occurrence, up to the number its service has; each type that finds the list full is reported |
| ForwardEffects.ListedTypes | src/Services/RealTimeForwardingControlService.cpp:136-145 | when they have room, a type is in the entry if and only if it was there before or is listed |
| ForwardEffects.AddServiceBlock | src/Services/RealTimeForwardingControlService.cpp:121-146 | configuration, position and reports after a service block |
| ForwardEffects.AddAppBlock | src/Services/RealTimeForwardingControlService.cpp:104-148 | what an application block does: refused, everything, or its service blocks |
| ForwardEffects.LastServiceAdded | src/Services/RealTimeForwardingControlService.cpp:121-146 | service blocks are worked off one by one, in order |
| ForwardEffects.LastAppAdded | src/Services/RealTimeForwardingControlService.cpp:104-148 | application blocks are worked off one by one, in order |
| ForwardEffects.AddAllExactly | src/Services/RealTimeForwardingControlService.cpp:6-18 | adding everything appends to every entry of the application exactly the report types of its service, and touches no other |
| ForwardEffects.DeleteReportsExact | src/Services/RealTimeForwardingControlService.cpp:218-277 | of an entry the types that are not listed are left, in order, and no entry when there are none; each type not there when its turn comes is reported |
| ForwardEffects.ErasedLength | src/Services/RealTimeForwardingControlService.cpp:218-230 | deleting a type makes any list one shorter, whatever duplicates it has: behind the others its end stays as it was |
| ForwardEffects.DuplicateStays | src/Services/RealTimeForwardingControlService.cpp:218-230 | of [1, 2, 1] deleting 1 leaves [2, 1] |
| ForwardEffects.DeleteServiceBlock | src/Services/RealTimeForwardingControlService.cpp:232-277 | configuration, position and reports after a service block of a delete request |
| ForwardEffects.DeleteAppBlock | src/Services/RealTimeForwardingControlService.cpp:232-277 | what an application block of a delete request does |
| ForwardEffects.LastAppDeleted | src/Services/RealTimeForwardingControlService.cpp:232-277 | application blocks are worked off one by one, in order |
| ForwardEffects.LastServiceDeleted | src/Services/RealTimeForwardingControlService.cpp:232-277 | service blocks are worked off one by one, in order |
| ForwardInvariant.AddAllExact | src/Services/RealTimeForwardingControlService.cpp:13-18 | adding all types of a service keeps the invariant if and only if the service has no entry |
| ForwardInvariant.AddEverythingExact | src/Services/RealTimeForwardingControlService.cpp:6-11 | adding all types of all services keeps it if and only if the application has no entry |
| ForwardInvariant.AddAppsExact | src/Services/RealTimeForwardingControlService.cpp:104-148 | a fitting add request over known services keeps all lists non-empty, duplicate-free and within their service's length if and only if each executed add-all finds no entry |
| ForwardInvariant.AddAppsExactKeys | src/Services/RealTimeForwardingControlService.cpp:104-148 | the same over the arguments: no block adds all report types of a service that has an entry from before or from an earlier block of the request |
| ForwardInvariant.FreshIsNew | src/Services/RealTimeForwardingControlService.cpp:104-148 | both conditions agree, because the entries after each block follow from the initial ones and the request |
| ForwardInvariant.NoAddAllIsFresh | src/Services/RealTimeForwardingControlService.cpp:121-146 | service blocks that list their types always meet that condition |
| ForwardInvariant.AddAppsControlled | src/Services/RealTimeForwardingControlService.cpp:36-56 | adding never brings in an application that is not controlled |
| ForwardInvariant.ErasedExact | src/Services/RealTimeForwardingControlService.cpp:218-230 | on a duplicate-free list the remove-erase deletes exactly the given type |
| ForwardInvariant.DeleteAppsValid | src/Services/RealTimeForwardingControlService.cpp:232-277 | deleting always keeps the invariant |
| ForwardInvariant.ControlledSize | src/Services/RealTimeForwardingControlService.cpp:20-64 | with at most five controlled applications a valid configuration never exceeds its fifty entries |
| ForwardReport.CountsAreRuns | src/Services/RealTimeForwardingControlService.cpp:295-303 | the counter of a group in the first pass is the number of its definitions the second pass writes |
| ForwardReport.OneEntryReport | src/Services/RealTimeForwardingControlService.cpp:286-328 | every byte of the report of a single entry |
| ForwardReport.GroupsAreControlled | src/Services/RealTimeForwardingControlService.cpp:293-303 | there are as many groups as applications and never more than controlled ones, so the counters suffice |
| ForwardReport.ReportLength | src/Services/RealTimeForwardingControlService.cpp:305-328 | the report is one byte, two for each application, two for each entry and one for each report type long |
| ForwardReport.ShortListsFit | src/Services/RealTimeForwardingControlService.cpp:286-328 | fifty entries of five applications with lists of at most eighteen types fit one message |
| ForwardReport.ValidIsReportable | src/Services/RealTimeForwardingControlService.cpp:286-328 | a valid configuration within the capacities always fits one message |
| ForwardReport.FirstIsNumbered | src/Services/RealTimeForwardingControlService.cpp:295-303 | the first group has another application id than 255, which stands for none, if and only if some application has |
| ForwardReport.ReportRoundTrip | src/Services/RealTimeForwardingControlService.cpp:286-328 | decoding the report of any configuration by its own nested counts returns exactly the configuration |
| ForwardRuns.ReachedControlled | src/Services/RealTimeForwardingControlService.cpp:104-277 | over every run of add and delete requests only controlled applications have entries |
| ForwardRuns.ReachedValid | src/Services/RealTimeForwardingControlService.cpp:104-277 | over a run whose add requests fit and name known services, the configuration is valid throughout if and only if no block adds all types of a service that has an entry by then |
| ForwardRuns.ReachedReport | src/Services/RealTimeForwardingControlService.cpp:104-328 | after every such run with at most five controlled applications the configuration is valid, within its capacities, and its report fits one message and decodes to it |
| ForwardRuns.LongReport | src/Services/RealTimeForwardingControlService.cpp:104-328 | for any five controlled applications well-formed add requests reach a configuration within every capacity whose report is 1036 bytes long, twelve more than a message has |
| ForwardControl.RealTimeForwardingControlService.CountServicesOfApplication | src/Services/RealTimeForwardingControlService.cpp:20-29 | the number of entries of an application |
| ForwardControl.RealTimeForwardingControlService.CheckApplication | src/Services/RealTimeForwardingControlService.cpp:45-64 | the verdict, the report and the skip over a refused application |
| ForwardControl.RealTimeForwardingControlService.AddReportTypesToAppProcessConfiguration | src/Services/RealTimeForwardingControlService.cpp:104-148 | configuration, read position and reports after a whole add request; the configuration is that of the run's step |
| ForwardControl.RealTimeForwardingControlService.DeleteReportTypesFromAppProcessConfiguration | src/Services/RealTimeForwardingControlService.cpp:232-277 | configuration, read position and reports after a whole delete request; the configuration is that of the run's step |
| ForwardControl.RealTimeForwardingControlService.DeleteApplicationProcess | src/Services/RealTimeForwardingControlService.cpp:170-178 | every entry of the application goes, no other |
| ForwardControl.RealTimeForwardingControlService.CountGroups | src/Services/RealTimeForwardingControlService.cpp:289-303 | the first pass counts groups and their sizes, within its five counters |
| ForwardControl.RealTimeForwardingControlService.AppProcessConfigurationContentReport | src/Services/RealTimeForwardingControlService.cpp:286-328 | when applications, entries and types add up to one message, the report decodes to the configuration; otherwise it holds the bytes that fit, and each other byte is reported |
| LargePackets.Reassembly | src/Services/LargePacketTransferService.cpp:54-86 | the parts joined in order of sending begin with the message |
| LargePackets.PartNumbers | src/Services/LargePacketTransferService.cpp:54-86 | from 256 bytes on the parts are numbered 0 to size/256 in order |
| LargePackets.PartTypes | src/Services/LargePacketTransferService.cpp:7-37 | the first report is TM[13,1], the last TM[13,3], the others TM[13,2], all of one transaction and with 256 bytes |
| LargePackets.SmallMessage | src/Services/LargePacketTransferService.cpp:54-86 | below 256 bytes two parts are sent, both numbered 0, the second with nothing of the message |
| LargePackets.PartReadsBack | src/Services/LargePacketTransferService.cpp:7-37 | a part report reads back as transaction, number, length and bytes |
| LargePackets.PartsInBuffer | src/Services/LargePacketTransferService.cpp:54-86 | the parts cover the message, and the last read ends inside the 1024-byte buffer if and only if the message has less than 1024 bytes |
| LargePackets.LargePacketTransferService.Split | src/Services/LargePacketTransferService.cpp:54-86 | the three loops send exactly the specified parts |
| Monitoring.CounterIsRun | inc/Helpers/PMON.hpp:178-194 | after any history the status is the last outcome since the last disable or modify, and the counter the number of consecutive checks with it, modulo 2^16 |
| Monitoring.LastRunIsLongest | inc/Helpers/PMON.hpp:250-266 | that number is the length of the longest suffix of equal outcomes |
| Monitoring.InvalidOnlyOnce | inc/Helpers/PMON.hpp:375-400 | a delta check is invalid exactly when no check came before it since its creation |
| Monitoring.FieldsAreLast | inc/Helpers/PMON.hpp:120-194 | after any history enabling, repetition number, check and previous sample are what the last event that concerns them made them |
| Monitoring.ExpectedOutcome | inc/Helpers/PMON.hpp:178-194 | an expected-value check holds exactly when the bits under the mask are those of the value |
| Monitoring.LimitOutcome | inc/Helpers/PMON.hpp:250-266 | the status says on which side of the limits the value is |
| Monitoring.DeltaOutcome | inc/Helpers/PMON.hpp:339-400 | the status compares the change with what the thresholds allow in the time passed, which may be negative |
| Monitoring.Pmon.PerformCheck | inc/Helpers/PMON.hpp:178-400 | status, counter and previous sample after a check of each kind |
| Monitoring.Pmon.Modify | src/Services/OnBoardMonitoringService.cpp:189-246 | the history is reset first, and the bounds replaced only when in order |
| Monitoring.OnBoardMonitoringService.CheckAll | src/Services/OnBoardMonitoringService.cpp:312-319 | exactly the enabled definitions are checked, each once; the others do not change |
| Monitoring.OnBoardMonitoringService.EnableDefinitions | src/Services/OnBoardMonitoringService.cpp:7-24 | exactly the listed definitions are enabled, with repetition number zero; unknown ids are reported |
| Monitoring.OnBoardMonitoringService.DisableDefinitions | src/Services/OnBoardMonitoringService.cpp:26-43 | exactly the listed definitions are disabled and unchecked; unknown ids are reported |
| Monitoring.IdsExact | src/Services/OnBoardMonitoringService.cpp:7-24 | the ids of a request are its two-byte numbers, in order |
| Monitoring.IdsErrorsExact | src/Services/OnBoardMonitoringService.cpp:7-43 | one error is reported for each id without a definition |
| Monitoring.OnBoardMonitoringService.DeleteAllDefinitions | src/Services/OnBoardMonitoringService.cpp:52-63 | all definitions go, unless the monitoring function is enabled; the report of a refusal |
| Monitoring.OnBoardMonitoringService.DeleteDefinitions | src/Services/OnBoardMonitoringService.cpp:144-162 | exactly the listed definitions that are not enabled go; every other id is reported |
| Monitoring.RemainingExact | src/Services/OnBoardMonitoringService.cpp:144-162 | a definition stays if and only if it is enabled or not listed |
| Monitoring.DeletionErrorsExact | src/Services/OnBoardMonitoringService.cpp:144-162 | one error is reported for each id that is unknown, enabled or deleted before |
| Statistics.Statistic.UpdateStatistics | src/Helpers/Statistic.cpp:4-18 | after any number of samples: the counter is their number modulo 2^16, the mean that of the samples since the counter wrapped, extremes and sum of squares those of all |
| Statistics.WindowNext | src/Helpers/Statistic.cpp:14-17 | a sample starts a new window when the counter is zero, and otherwise extends a window of as many samples as the counter says |
| Statistics.MeanBounds | src/Helpers/Statistic.cpp:4-18 | the mean lies between minimum and maximum |
| Statistics.Variance | src/Helpers/Statistic.cpp:27-35 | the mean of the squares less the squared mean is the average squared deviation, never negative |
| Statistics.WrappedVariance | src/Helpers/Statistic.cpp:27-35 | the mean of all squares less the squared mean of the window is the window's variance plus the earlier samples' squares over the counter |
| Statistics.Statistic.SquaredDeviation | src/Helpers/Statistic.cpp:27-35 | the number under the root is the variance of the samples since the wrap plus the earlier squares over the counter, so it is the variance if and only if the earlier samples are all zero, as before the first wrap |
| Statistics.Statistic.InitializedIsEmpty | src/Helpers/Statistic.cpp:53-57 | exactly the empty history counts as initialized |

## Left out

- The clock, UDP sending, logging, the file services and the tasks around the services: the time is an argument, and
  reports are returned or recorded.
- `MessageParser::execute` and the services' `execute` switches: each handler is modelled by itself. Executing a released
  or stored telecommand is recorded, not carried out; a released request that edits the schedule is not modelled.
- ST[01], ST[05], ST[06], ST[08], ST[17], ST[19], ST[20] and ST[23], and the housekeeping handlers besides the periodic
  reports: thin, or bound to memory and files. The handlers that create and extend housekeeping structures, whose duplicate
  check narrows parameter ids to eight bits, are not modelled.
- Parser.Parse: requires that an accepted packet holds its secondary header and at most 1024 bytes of body, because the
  source copies the body unchecked.
- Parser.ComposeEcss: the time stamp of telemetry is an argument.
- Housekeeping intervals are at most 429496729 seconds, what the time stamp can represent; runs have one fixed
  configuration of positive intervals.
- StorageAndRetrieval.StorageAndRetrievalService.ActOnAll: the ids are ordered by signed characters, as on the x86 platform
  the repository is configured for.
- Housekeeping.HousekeepingService.ReportPendingStructures: a report is recorded by its structure's id; its parameter
  values are not modelled.
- Messages.Message.ReadSigned: the order of the two reads of a 64-bit number is unspecified in the source; the model reads
  the more significant word first.
- Scheduling.TimeBasedSchedulingService.ExecuteScheduledActivity: the source looks at the first activity before it asks
  whether there is one; the model asks first.
- Scheduling.TimeBasedSchedulingService.TimeShiftAllActivities: requires a non-empty schedule, because the source
  dereferences the earliest activity.
- Scheduling.TimeBasedSchedulingService.DetailReportActivitiesById: requires at most ten matches, the capacity of its local
  list; likewise for the summary report.
- StorageAndRetrieval.StorageAndRetrievalService.CopyPacketsInTimeWindow: requires a non-empty source once the other checks
  are passed, because the source looks at its first and last packet.
- PacketStores.ReachableOrdered: storing telemetry is a step with a given time; a full queue and a missing store leave the
  stores as they are. Content, status and configuration reports of ST[15] and the mutators used by tests are not modelled.
- ForwardControl.RealTimeForwardingControlService.AddReportTypesToAppProcessConfiguration: the table of report types has no
  entry for an unknown service, where the source's lookup fails; the model takes an empty list. A list of the source holds
  twenty report types; the model's lists grow on, which only repeated requests for all types of a service reach (a valid
  configuration has at most nine in a list).
- ForwardControl.RealTimeForwardingControlService.DeleteApplicationProcess: the source erases the end of the map once after
  the last entry; the model stops there.
- ForwardControl.RealTimeForwardingControlService.AppProcessConfigurationContentReport: requires that application 255 is not
  the only one, because the source uses 255 for "none yet" and then counts outside its array; likewise `CountGroups`.
- LargePackets.LargePacketTransferService.Split: a full message of 1024 bytes is excluded, for which the source reads past the
  buffer. The uplink functions return their argument.
- Monitoring.Pmon: the three classes of checks are one class with a kind; a modification has the kind of the definition, and
  its values are arguments. Adding definitions and reporting them are not modelled. Limits and samples are real numbers.
- Statistics.Statistic.UpdateStatistics: real arithmetic, without rounding; the square root is not taken.
- The containers of the template library are sequences and maps; their capacities are stated where they matter.
- CUC header builders, time stamps with other ratios and floating-point conversions.
