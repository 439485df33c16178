# GNSS clock receiver pipeline, modelled in Dafny

This project models the receiver side of an M5Stack Core2 GNSS clock. A
u-blox receiver streams NMEA 0183 text sentences and UBX binary frames over a
serial port. The firmware:

- frames the byte stream into `$…` lines and skips UBX frames;
- checks each line's XOR checksum and dispatches it by sentence type;
- decodes RMC and GGA sentences into status records;
- keeps a per-constellation, per-signal catalog of satellites in view (GSV);
- disciplines the system clock from RMC time and the PPS pulse, jumping it or
  slewing it, and writes the RTC once when the clock first synchronises.

The model also covers three in-place data structures around this pipeline:
the 128-slot IMU ring buffer, the 4096-byte SD-card write buffer with its
READY/ERROR state machine, and the 32-slot satellite table behind the sky
plot on the main screen (with the PPS LED countdown).

Modules, one per source concern:

| file | module | models |
|---|---|---|
| `c_types.dfy` | `CTypes` | fixed-width C integers: wrapping `uint32_t`/`uint64_t`, saturating `strtol`, `int` wrap-around |
| `nmea_types.dfy` | `NmeaTypes` | the records and constants of `src/nmea_parser.h` |
| `nmea_text.dfy` | `NmeaText` | checksum test, field counting and extraction, `strtol`/`atoi`/`sscanf` as the decoders use them |
| `nmea_decode.dfy` | `NmeaDecode` | `nmea_parse_rmc` and `nmea_parse_gga` |
| `nmea_gsv.dfy` | `NmeaGsv` | the GSV catalog: update, ageing, counts, init/free |
| `gnss_framer.dfy` | `GnssFramer` | the byte state machine of `gnss_poll` |
| `clock_discipline.dfy` | `ClockDiscipline` | the decision arithmetic of `rmc_to_systime` |
| `gnss_main.dfy` | `GnssMain` | `sys_status_init`, `gnss_parse_nmea_line`, `gnss_poll`, the sync/RTC logic of `loop` |
| `sensor_logger.dfy` | `SensorLogger` | class `IMUFifo` |
| `sd_logger.dfy` | `SdLogger` | `sd_init` and class `SDLogger` |
| `scrn_main.dfy` | `ScrnMain` | `SatelliteDisplay` and the satellite/LED parts of `ScreenMain` |

Throughout the model:

- The target is an ESP32. `char` is unsigned there, so a C string is a
  `seq<char>` whose characters are bytes 1..255. `int` and `long` are 32 bits.
- Pure scans and decoders are functions. The code that updates state in
  place is a class whose methods are each proved equal to a specification
  function applied to the old state. Those classes are the GSV catalog, the
  framer, the global status, the FIFO, the SD logger and the satellite table.
  The properties are then proved about the specification functions.
- Linked lists of GSV tracks are sequences whose element 0 is the embedded
  head. `malloc` success is a boolean parameter.
- The millisecond clock, `micros()`, `gettimeofday`, the result of `mktime`,
  the outcome of each SD-card open and write, and the screen's trigonometric
  projection are all parameters. `settimeofday` and `adjtime` calls are
  returned as `ClockAction` values.

Behaviours of the code worth noting, all of which the model follows:

- `rmc_to_systime` can hand `settimeofday` a `tv_usec` of up to 1,000,004
  (`ClockDiscipline.PhaseCanExceedOneSecond`).
- The RMC branch of `gnss_parse_nmea_line` ignores the decoder's return code.
  Fields written before a failing field therefore stay in the status
  (`NmeaDecode.RmcFailureTable` lists which), and a record that was valid
  before still drives the clock.
- The GGA branch decodes into an uninitialised local record, and that record
  is copied whole. Its differential-correction fields are never written by
  the decoder, so the model takes them as the `scratchGga` input.
- The comment at src/main.cpp:412 says an RMC line without valid data and a
  fix sets the synchronisation state to 0. The code (src/main.cpp:405-413)
  only calls `scrn_main.set_sync_state(0)`, which recolours the screen, and
  never writes `sys_status.sync_state`. Once synchronised, the status stays
  GNSS or PPS (`ClockDiscipline.DisciplineNeverReturnsToNone`,
  `GnssMain.RmcLineDisciplines`).

## Model

| member | source | states |
|---|---|---|
| CTypes.SubU32 | src/main.cpp:276 | `uint32_t` subtraction wraps: `a - b`, plus 2^32 when `b > a` |
| CTypes.IncU32 | src/main.cpp:415 | the update counter's `++` wraps from 2^32-1 to 0 |
| CTypes.SubU64 | src/nmea_parser.c:393-396 | `uint64_t` subtraction wraps modulo 2^64 |
| CTypes.ClampLong | src/nmea_parser.c:132 | `strtol` saturates out-of-range values at LONG_MIN/LONG_MAX and is exact in range |
| CTypes.WrapI32 | src/sensor_logger.cpp:63 | a signed 32-bit result is congruent to the exact value modulo 2^32, and equals it in range |
| NmeaTypes.FixCode | src/nmea_parser.h:30-39 | every fix type has a code in 0..9, and the code is 0 exactly for NOFIX |
| NmeaTypes.FixCodesDistinct | src/nmea_parser.h:30-39 | the ten codes are distinct (decoding a code gives back its fix type) and NOFIX is the least |
| NmeaTypes.ConstellationIndex | src/nmea_parser.h:118-124 | each constellation's list is the one at its position in the catalog's field order gps, glonass, galileo, beidou, qzss |
| NmeaTypes.ConstellationIndexBijective | src/nmea_parser.h:118-124 | distinct constellations have distinct lists, and each of the five lists belongs to exactly one constellation |
| NmeaTypes.NewTrack | src/nmea_parser.c:290-297 | a new track is zero-filled, both arrays have 64 slots, and it carries the requested signal id |
| NmeaTypes.InitRmc | src/nmea_parser.c:491-508 | `nmea_init_rmc`: data invalid, no fix, never updated |
| NmeaTypes.InitGga | src/nmea_parser.c:678-701 | `nmea_init_gga`: no fix, no satellites, never updated |
| NmeaText.IndexOf | src/nmea_parser.c:126 | `strchr`: the index of the first occurrence, none before it |
| NmeaText.IsValidChecksum | src/nmea_parser.c:119-141 | the loop returns true exactly when the sentence has at least 7 characters, its first `*` is at offset 3 or more, and the XOR of the characters between `$` and `*` equals the hex value after `*` |
| NmeaText.XorRange | src/nmea_parser.c:133-138 | the loop leaves the XOR of every character after `$` and before `*` |
| NmeaText.ChecksumRoundTrip | src/nmea_parser.c:119-141 | a sentence framed with the XOR of its own body as its suffix always passes the checksum |
| NmeaText.ChecksumDetectsChange | src/nmea_parser.c:119-141 | changing any one body character of such a sentence makes it fail |
| NmeaText.XorUpdate | src/nmea_parser.c:135-138 | replacing one character changes the running XOR by the old and new bytes |
| NmeaText.StrtolHexByte | src/nmea_parser.c:132 | `strtol(…, 16)` reads a two-digit upper-case hex suffix back exactly |
| NmeaText.SentenceShape | src/nmea_parser.c:126-135 | in a framed sentence the first `*` follows the body, and the body and suffix sit where the checksum reads them |
| NmeaText.CountFields | src/nmea_parser.c:90-110 | `nmea_count_fields` returns one more than the number of commas |
| NmeaText.FieldsCount | src/nmea_parser.c:90-110 | the reference comma split has one more field than there are commas |
| NmeaText.FieldsHaveNoComma | src/nmea_parser.c:41-81 | no field of the split contains a comma |
| NmeaText.JoinFields | src/nmea_parser.c:41-81 | joining the fields with commas gives back the sentence |
| NmeaText.FieldsJoin | src/nmea_parser.c:41-81 | splitting comma-free fields joined with commas gives back the fields |
| NmeaText.FieldAtIsField | src/nmea_parser.c:48-62 | the comma walk reaches field `index` exactly when the split has that many fields, and returns that field |
| NmeaText.ExtractField | src/nmea_parser.c:41-81 | an extracted field never contains `*` |
| NmeaText.ExtractFieldIsField | src/nmea_parser.c:41-81 | extraction succeeds exactly for a positive buffer size, an index within the field count and a field shorter than the buffer; it then returns that field cut at its first `*` |
| NmeaText.ScanTimeDigits | src/nmea_parser.c:564 | `%2d%2d%2d.%2d` on `hhmmss.ss` digits assigns the four two-digit values |
| NmeaText.Scan3Digits | src/nmea_parser.c:626 | `%2d%2d%2d` on six digits assigns the three two-digit values |
| NmeaDecode.ModeFix | src/nmea_parser.c:638-663 | each RMC mode letter maps to a fix; exactly the letters other than A, D, E, F, R, P and S map to INVALID, and none maps to NOFIX |
| NmeaDecode.QualityFix | src/nmea_parser.c:803-828 | each GGA quality digit maps to a fix; exactly the digits other than 1-6 map to INVALID, and none maps to NOFIX |
| NmeaDecode.RmcFailureTable | src/nmea_parser.c:517-669 | the RMC code is the first entry of the field table (status 2: -4/-5, time 1: -5/-6, latitude 3: -7/-8, hemisphere 4: -9/-10, longitude 5: -9/-10, east/west 6: -11/-12, date 9: -13/-14, mode 12: -15/-16; missing/empty) whose field is missing or empty, after -2 and -3; with k fields passed, the status is written iff k >= 1, the time iff k >= 2, latitude iff k >= 3 (south sign only if k >= 4), longitude iff k >= 5 (west sign only if k >= 6), the date iff k >= 7, fix and stamp iff all 8 pass |
| NmeaDecode.ParseRmc | src/nmea_parser.c:517-669 | error codes: -2 iff the checksum fails, -3 iff the type is not RMC, 0 iff every required field is present. On success the status, time, date (year + 2000), mode and update stamp are set. Failures keep the old fix and stamp, and -2..-4 change nothing |
| NmeaDecode.RmcStatus | src/nmea_parser.c:538-553 | `data_valid` is 1 exactly when the status field starts with `A` |
| NmeaDecode.RmcTime | src/nmea_parser.c:556-565 | the time fields come from `sscanf` of field 1, and milliseconds are the hundredths times ten |
| NmeaDecode.RmcLatitude | src/nmea_parser.c:568-591 | the latitude text, negated for `S`; earlier fields are kept on failure |
| NmeaDecode.RmcLongitude | src/nmea_parser.c:593-616 | the longitude text, negated for `W` |
| NmeaDecode.RmcDate | src/nmea_parser.c:618-628 | the date fields come from `sscanf` of field 9 |
| NmeaDecode.RmcMode | src/nmea_parser.c:630-668 | the mode letter sets the fix type and the update stamp; nothing changes on failure |
| NmeaDecode.RmcTimeOfWellFormedField | src/nmea_parser.c:556-565 | a decoded RMC with a well-formed `hhmmss.ss` field holds exactly its hours, minutes, seconds and ten times its hundredths |
| NmeaDecode.RmcDateOfWellFormedField | src/nmea_parser.c:618-628 | a decoded RMC with a well-formed `ddmmyy` field holds that day and month and the year 2000 + yy |
| NmeaDecode.GgaFailureCode | src/nmea_parser.c:710-903 | the GGA code is the first entry of the field table (field n: -2n-2 when it cannot be extracted, -2n-3 when empty) whose field is missing or empty, after -2 for a bad checksum and -3 for another type; -2 and -3 leave the record unchanged |
| NmeaDecode.GgaFailureTable | src/nmea_parser.c:710-903 | on a GGA line, with k fields passed before the first missing or empty one: the time is written iff k >= 1, latitude iff k >= 2 (south sign only if k >= 3), longitude iff k >= 4 (west sign only if k >= 5), fix iff k >= 6, satellites iff k >= 7, HDOP iff k >= 8, altitude iff k >= 9 (feet only if k >= 10), geoid separation iff k >= 11 (feet only if k >= 12), the stamp iff all 12 pass; the differential fields never |
| NmeaDecode.ParseGga | src/nmea_parser.c:710-903 | error codes: -2 iff the checksum fails, -3 iff the type is not GGA, 0 iff all twelve fields are present. On success the time, fix, satellite count and update stamp are set. The stamp changes only on success, -2..-5 change nothing, and the differential fields are never written |
| NmeaDecode.GgaTime | src/nmea_parser.c:731-741 | the time fields come from `sscanf` of field 1 |
| NmeaDecode.GgaLatitude | src/nmea_parser.c:743-767 | the latitude text, negated for `S` |
| NmeaDecode.GgaLongitude | src/nmea_parser.c:769-793 | the longitude text, negated for `W` |
| NmeaDecode.GgaQuality | src/nmea_parser.c:795-829 | the quality digit sets the fix type |
| NmeaDecode.GgaSatellites | src/nmea_parser.c:831-840 | `num_sats` is `atoi` of field 7 |
| NmeaDecode.GgaHdop | src/nmea_parser.c:842-851 | the HDOP text is kept |
| NmeaDecode.GgaAltitude | src/nmea_parser.c:853-875 | the altitude text, scaled when the unit is feet |
| NmeaDecode.GgaGeoid | src/nmea_parser.c:877-902 | the geoid separation, scaled when the unit is feet, and the update stamp |
| NmeaDecode.GgaTimeOfWellFormedField | src/nmea_parser.c:731-741 | a decoded GGA with a well-formed time field holds exactly its parts |
| NmeaGsv.InitialCatalog | src/nmea_parser.c:150-159 | `nmea_init_gsv_data_all`: a valid catalog of five lists, each a single empty head |
| NmeaGsv.SignalIdOf | src/nmea_parser.c:229-254 | the signal id is 0 unless the sentence has more than 8 fields and one more than a multiple of 4. A present id lies in 0..15, and failures are -5, -6 or -7 |
| NmeaGsv.SignalIdOfLastField | src/nmea_parser.c:229-254 | with a signal-id field (the last one): -5 iff it does not fit 10 bytes, -7 iff it is empty, -6 iff its base-16 `strtol` value is outside 0..15, and otherwise the id is that value. Without such a field the id is 0 |
| NmeaGsv.SignalIdOfHexDigit | src/nmea_parser.c:237-245 | a one-hex-digit last field is the signal id |
| NmeaGsv.ReadSignalId | src/nmea_parser.c:229-254 | the field count and signal-id steps give exactly the id or error code that `SignalIdOf` specifies |
| NmeaGsv.ConstellationOf | src/nmea_parser.c:257-276 | the talker letter names a constellation exactly when it is P, L, A, B or Q |
| NmeaGsv.FindTrack | src/nmea_parser.c:279-286 | the first track with the signal id, no earlier one matching |
| NmeaGsv.Push | src/nmea_parser.c:356-360 | a staged satellite is appended after the staged ones and nothing else changes |
| NmeaGsv.StageFrom | src/nmea_parser.c:326-362 | staging keeps the track valid, leaves the committed satellites alone and only adds to the staged count |
| NmeaGsv.StageFromRoom | src/nmea_parser.c:326-334 | with room in the 64-slot staging array for every block, the satellite loop never returns -6 |
| NmeaGsv.StageFromAppendsReported | src/nmea_parser.c:326-362 | when the loop does not return -6, staging appends exactly the satellites of the complete blocks before the first unextractable one, in order |
| NmeaGsv.AppendStep | src/nmea_parser.c:336-360 | one complete block pushes its satellite and the report starts with it |
| NmeaGsv.Publish | src/nmea_parser.c:366-373 | the last sentence of a group commits the staged satellites, stamps the time and empties staging |
| NmeaGsv.UpdateTrack | src/nmea_parser.c:305-375 | -5 iff the sentence numbers cannot be extracted, in which case nothing changes. While number ≠ total the committed satellites and stamp are kept. The signal id never changes. What codes 0 and -6 do to staging and the committed satellites is stated by `UpdateTrackStages` |
| NmeaGsv.UpdateTrackStages | src/nmea_parser.c:305-375 | one sentence of a group on a track: sentence 1 restarts staging; with room for its blocks the code is 0; -6 leaves the committed satellites and stamp alone. On 0, staging holds the earlier staged satellites followed by this sentence's report; when number = total that is committed, stamped with the time and staging emptied, otherwise the committed part is kept |
| NmeaGsv.FirstSentenceRestartsGroup | src/nmea_parser.c:320-323 | a sentence 1 arriving mid-group drops the partial group: staging holds only its own report, and the committed satellites are kept |
| NmeaGsv.GroupPublishesConcatenation | src/nmea_parser.c:320-373 | a complete group of up to 16 sentences of four blocks, received in order, commits exactly the concatenation of what its sentences report (e.g. 4+4+2 gives those 10), stamped, with staging emptied |
| NmeaGsv.GroupSentence | src/nmea_parser.c:320-373 | sentence k+1 of an n-sentence group returns 0 and stages, or if last commits, the satellites staged before it followed by its own report |
| NmeaGsv.GsvUpdate | src/nmea_parser.c:205-376 | codes 0 or -2..-8; -2 iff the checksum fails; -3 iff the checksum holds but the type is not GSV; -4 iff the header and signal id are accepted but the talker is not P/L/A/B/Q; -7 iff the header is accepted and the signal-id field is empty. Codes -2, -3, -4, -7 and -8 leave the catalog unchanged, and the catalog stays valid. What an accepted sentence does to its track is stated by `GsvUpdateUpdatesTrack` and `UpdateTrackStages` |
| NmeaGsv.GsvUpdateUpdatesTrack | src/nmea_parser.c:256-375 | an accepted sentence returns -8 iff its constellation has no track for its signal id and allocation fails; otherwise its code and that track's new value are those of `UpdateTrack` on the found or freshly zeroed track |
| NmeaGsv.GsvUpdateReachesConstellation | src/nmea_parser.c:256-303 | once the header, signal id and talker are accepted, the update is the one for that constellation's list |
| NmeaGsv.UpdateConstellation | src/nmea_parser.c:278-375 | find-or-append: -8 iff the id is missing and allocation fails, with nothing changed. Otherwise exactly one track is appended when the id is new, the id keeps its position, the track is updated as `UpdateTrack` says, and no other list or track changes |
| NmeaGsv.SingleSentenceGroupPublishes | src/nmea_parser.c:320-373 | a successful 1-of-1 sentence publishes exactly the satellites it reports, stamped with the time |
| NmeaGsv.SingleSentenceTrack | src/nmea_parser.c:320-373 | the same, for the track found or appended for the id |
| NmeaGsv.GroupInProgressKeepsPublished | src/nmea_parser.c:364-373 | a sentence of an unfinished group leaves every committed satellite list and count as it was |
| NmeaGsv.InProgressKeepsPublished | src/nmea_parser.c:364-373 | the same for one constellation's find-or-append and update: no existing track's committed satellites or count change |
| NmeaGsv.ReplaceKeepsListValid | src/nmea_parser.c:279-303 | replacing a track by a valid one with the same id keeps the list's ids distinct |
| NmeaGsv.StaleIffOlderThanAge | src/nmea_parser.c:393-400 | once the clock has passed the age, a track is cleared exactly when it is older than the age |
| NmeaGsv.StaleBeforeClockPassesAge | src/nmea_parser.c:393-400 | before the clock passes the age, the unsigned subtraction wraps and every track counts as stale |
| NmeaGsv.ClearOld | src/nmea_parser.c:385-406 | ageing sets the committed count of every stale track to 0 and changes nothing else in it, never removes a track, and leaves fresh tracks untouched |
| NmeaGsv.ClearOldKeepsListValid | src/nmea_parser.c:385-406 | ageing keeps a list valid |
| NmeaGsv.MaxSats | src/nmea_parser.c:434-456 | the result is an upper bound on every track's count and is attained (or 0) |
| NmeaGsv.GetSatellites | src/nmea_parser.c:434-456 | the scan returns that maximum |
| NmeaGsv.TotalSatsBounded | src/nmea_parser.c:465-482 | a valid catalog reports between 0 and 320 satellites |
| NmeaGsv.GsvCatalog.constructor | src/nmea_parser.c:150-159 | the catalog starts as the initial catalog |
| NmeaGsv.GsvCatalog.InitAll | src/nmea_parser.c:150-159 | re-initialisation gives the initial catalog |
| NmeaGsv.GsvCatalog.Update | src/nmea_parser.c:205-376 | the in-place update returns the code and leaves the catalog that `GsvUpdate` specifies |
| NmeaGsv.GsvCatalog.UpdateConstellationOf | src/nmea_parser.c:278-375 | the list walk, append and staging in place equal `UpdateConstellation` |
| NmeaGsv.GsvCatalog.ClearOldAll | src/nmea_parser.c:409-423 | each of the five lists is aged as `ClearOld` specifies |
| NmeaGsv.GsvCatalog.GetSatellitesAll | src/nmea_parser.c:465-482 | the sum of the five maxima, between 0 and 320 |
| NmeaGsv.GsvCatalog.FreeAll | src/nmea_parser.c:166-197 | every appended track is released and each embedded head kept as it was |
| NmeaGsv.UpdateTrackOf | src/nmea_parser.c:305-375 | the sentence-number and staging code equals `UpdateTrack` |
| NmeaGsv.StageSatellites | src/nmea_parser.c:326-362 | the four-block loop equals `StageFrom` |
| GnssFramer.FrameStep | src/main.cpp:441-557 | a line is emitted exactly on LF in the text state; it is the buffer, and the framer goes idle |
| GnssFramer.FrameStepKeepsValid | src/main.cpp:462-551 | every state keeps the buffer within 255 bytes (the NUL write stays in bounds). Every emitted line starts with `$` and holds no CR or LF |
| GnssFramer.DropCR | src/main.cpp:471-474 | the kept bytes are the input without carriage returns |
| GnssFramer.NmeaBodyCollected | src/main.cpp:462-486 | inside a line, bytes other than LF are collected, CR dropped, while there is room |
| GnssFramer.NmeaLineRoundTrip | src/main.cpp:443-486 | a `$` line that fits the buffer, fed from idle, comes out whole without its CRs, and the framer is idle again |
| GnssFramer.FeedAppend | src/main.cpp:434-558 | feeding two chunks equals feeding their concatenation |
| GnssFramer.UbxHeaderRead | src/main.cpp:452-531 | the sync bytes, class, id and little-endian length lead to the payload state, or straight back to idle when the length exceeds 248 |
| GnssFramer.UbxPayloadConsumed | src/main.cpp:533-551 | the payload and checksum bytes are consumed and the framer ends idle |
| GnssFramer.UbxFrameSkipped | src/main.cpp:452-551 | a whole UBX frame of admissible length emits no line and ends idle |
| GnssFramer.UbxOversizeDropped | src/main.cpp:519-525 | a length above 248 drops the frame when the length is read |
| GnssFramer.LineText | src/main.cpp:465-468 | the C string the parser sees is the bytes before the first NUL |
| GnssFramer.LineFramer.Step | src/main.cpp:441-557 | one byte updates `linebuf`, `linepos` and `linestate` in place as `FrameStep` specifies, and returns the line it completes |
| GnssFramer.LineFramer.StepIdle | src/main.cpp:443-460 | the idle case as `FrameStep` specifies |
| GnssFramer.LineFramer.StepNmea | src/main.cpp:462-487 | the text case as `FrameStep` specifies |
| GnssFramer.LineFramer.StepUbxSync | src/main.cpp:489-502 | the second-sync case as `FrameStep` specifies |
| GnssFramer.LineFramer.StoreHeaderByte | src/main.cpp:504-512 | the class and id cases as `FrameStep` specifies |
| GnssFramer.LineFramer.StepUbxLength | src/main.cpp:514-531 | the length case as `FrameStep` specifies |
| GnssFramer.LineFramer.StepUbxPayload | src/main.cpp:533-551 | the payload case as `FrameStep` specifies |
| ClockDiscipline.PpsPhase | src/main.cpp:272-289 | the phase is 0 or between 5 and 1,000,004 µs, and 0 when no pulse was recorded |
| ClockDiscipline.PpsPhaseMeasuresAge | src/main.cpp:274-289 | across `micros()` wrap-around, the phase is the pulse's true age + 5 µs under one second, and 0 from one second on |
| ClockDiscipline.PhaseCanExceedOneSecond | src/main.cpp:277-294 | an age of 999,999 µs yields `tv_usec` = 1,000,004 |
| ClockDiscipline.TimeDelta | src/main.cpp:295-304 | a gap of 2 s or more forces 1,000,000 µs; otherwise it is the exact offset in µs |
| ClockDiscipline.Discipline | src/main.cpp:240-336 | nothing happens for invalid data or a failed `mktime`. Otherwise the sync state is PPS iff the phase is positive, else GNSS. The clock is set to (epoch + 9 h, phase) iff the coarse guard trips or the offset is at least 500 ms, and otherwise slewed by the offset + 10 µs |
| ClockDiscipline.DisciplineNeverReturnsToNone | src/main.cpp:325-334 | the new state is the old one, GNSS or PPS, so it never returns to NONE |
| ClockDiscipline.DisciplineReachesGnssTime | src/main.cpp:291-322 | after the call the system clock reads the GNSS time, exactly after a jump and up to the `adjtime` allowance after a slew |
| GnssMain.ParseLine | src/main.cpp:373-419 | dispatching keeps the GSV catalog valid |
| GnssMain.BadChecksumIgnored | src/main.cpp:377-381 | a line failing the checksum changes nothing and calls no clock function |
| GnssMain.RmcLineCounted | src/main.cpp:400-416 | every checksum-valid RMC line increments `update_count` and clears `ppsTimestamp`, whatever the decode returns; no other line touches either |
| GnssMain.GgaCommittedOnlyOnSuccess | src/main.cpp:383-394 | the GGA record, fix status and satellite count change only for a `$GNGGA` line that decodes with 0, and then take the decoded values |
| GnssMain.GsvLineOnlyUpdatesCatalog | src/main.cpp:395-399 | a GSV line changes only the catalog, as `GsvUpdate` does |
| GnssMain.ClockDrivenOnlyByValidRmc | src/main.cpp:400-413 | a clock call comes only from an RMC line whose record is valid with a fix. The sync state stays or becomes GNSS/PPS, and never returns to NONE |
| GnssMain.RmcLineDisciplines | src/main.cpp:400-416 | a checksum-valid RMC line stores the decoded record; when it is valid with a fix, the clock call and new sync state are exactly `Discipline`'s, otherwise no call and the state stays. The PPS timestamp is cleared, the counter bumped, and GGA, GSV and fix fields kept |
| GnssMain.PollSpec | src/main.cpp:426-559 | a poll keeps the catalog valid |
| GnssMain.PollFramesAsFeed | src/main.cpp:434-558 | the poll frames the stream exactly as the framer alone does, and hands every completed line to the parser in order |
| GnssMain.PollNeverReturnsToNone | src/main.cpp:426-559 | across a whole poll the sync state never returns to NONE |
| GnssMain.RtcWrittenOnce | src/main.cpp:722-728 | over any run of loop iterations the RTC is written at most once. It is written exactly once iff the run starts at NONE and the state ever leaves NONE |
| GnssMain.NoWritesOnceSynced | src/main.cpp:722-728 | after the state has left NONE, no later iteration writes the RTC |
| GnssMain.InitialReceiver | src/main.cpp:224-231 | `sys_status_init`: a valid empty catalog and sync state NONE |
| GnssMain.GnssClock.constructor | src/main.cpp:224-231 | the globals start as `sys_status_init` leaves them, with no PPS timestamp |
| GnssMain.GnssClock.SysStatusInit | src/main.cpp:224-231 | the counter, catalog, records and sync state return to their initial values |
| GnssMain.GnssClock.OnPpsInterrupt | src/main.cpp:83-86 | the handler records `micros()` |
| GnssMain.GnssClock.ParseNmeaLine | src/main.cpp:373-419 | the in-place dispatch leaves the state and makes the clock call that `ParseLine` specifies |
| GnssMain.GnssClock.Dispatch | src/main.cpp:383-417 | after a good checksum, the `$GNGGA`, `G?GSV` and `G?RMC` tests leave the state, and make the clock call, that `Route` specifies; other lines change nothing |
| GnssMain.GnssClock.HandleGga | src/main.cpp:383-394 | the GGA branch as `ParseLine` specifies |
| GnssMain.GnssClock.StoreGga | src/main.cpp:386-393 | the GGA record, fix code and satellite count are copied only when the decoder returned 0 |
| GnssMain.GnssClock.HandleGsv | src/main.cpp:395-399 | a GSV line changes only the catalog, to what `GsvUpdate` specifies, and keeps it valid |
| GnssMain.GnssClock.HandleRmc | src/main.cpp:400-416 | the RMC branch as `ParseLine` specifies |
| GnssMain.GnssClock.DisciplineFromRmc | src/main.cpp:405-415 | the clock decision, PPS reset and counter increment after the RMC decode |
| GnssMain.GnssClock.Poll | src/main.cpp:426-559 | the byte loop leaves the status and framer state, and makes the clock calls, that `PollSpec` specifies |
| GnssMain.GnssClock.PollByte | src/main.cpp:434-468 | one byte through the framer, and a completed line through the parser, advance the status, framer state and clock calls by one step of `PollSpec` |
| GnssMain.GnssClock.Loop | src/main.cpp:683-771 | the LED fires on a new non-zero PPS timestamp. The RTC write and logger start happen exactly on the NONE→synchronised transition (loggers only without an SD fault), and `prev_sync_state` tracks the state |
| SensorLogger.QueuePush | src/sensor_logger.cpp:52-66 | a push appends the record iff fewer than 128 are queued, and otherwise leaves the queue unchanged |
| SensorLogger.QueuePop | src/sensor_logger.cpp:68-81 | a pop yields the oldest record and the rest iff the queue is not empty |
| SensorLogger.FifoOrder | src/sensor_logger.cpp:52-81 | over any run of pushes and pops, the records popped followed by those left equal the initial queue followed by those accepted. The queue never exceeds 128 |
| SensorLogger.SlotsDistinct | src/sensor_logger.cpp:52-81 | distinct offsets below 128 from the tail are distinct ring slots |
| SensorLogger.IMUFifo.constructor | src/sensor_logger.cpp:33-36 | an empty FIFO with head, tail, count and overflow at 0 |
| SensorLogger.IMUFifo.Push | src/sensor_logger.cpp:52-66 | the queued records change as `QueuePush` says, with `head = (tail + count) mod 128` kept. A full FIFO only increments `overflow` |
| SensorLogger.IMUFifo.Pop | src/sensor_logger.cpp:68-81 | returns the oldest record and advances `tail` iff not empty; otherwise nothing changes |
| SensorLogger.IMUFifo.Size | src/sensor_logger.cpp:83-86 | the number of queued records |
| SensorLogger.IMUFifo.Clear | src/sensor_logger.cpp:88-96 | empty, with every index and the overflow count at 0 |
| SdLogger.AppendBuffer | src/sd_logger.cpp:219-231 | writing the staged bytes appends them to the file iff the card accepts them all |
| SdLogger.WriteAccounts | src/sd_logger.cpp:195-255 | a successful `write_data` adds exactly its bytes to file ++ buffer and stays READY with at most 4096 staged. A refusal (not READY) changes nothing, a card failure leaves ERROR with the fault flag set, and the file only grows |
| SdLogger.SmallWriteStaysInBuffer | src/sd_logger.cpp:202-207 | a write that fits in the buffer only appends to it and never touches the file |
| SdLogger.FlushAccounts | src/sd_logger.cpp:263-296 | a successful flush moves every staged byte to the file. A failure leaves ERROR with the fault set, and a non-READY logger returns -1 unchanged |
| SdLogger.StartAccounts | src/sd_logger.cpp:115-150 | start fails on an uninitialised or faulty card and does nothing when READY. Otherwise it is READY with nothing logged, or ERROR with the fault set |
| SdLogger.CloseAndRestart | src/sd_logger.cpp:161-185 | close succeeds iff READY and then ends in ERROR; restart on a healthy card with a successful open ends READY and empty |
| SdLogger.SdCard.Init | src/sd_logger.cpp:43-59 | `sd_init`: a no-op when initialised; otherwise the card's answer sets initialised or fault |
| SdLogger.SDLogger.constructor | src/sd_logger.cpp:74-86 | a new logger is in ERROR with an empty buffer; a failed allocation marks the card faulty |
| SdLogger.SDLogger.Start | src/sd_logger.cpp:115-150 | `start` in place, as `StartSpec` specifies |
| SdLogger.SDLogger.WriteBuffer | src/sd_logger.cpp:219-231 | the staged bytes go to the file as `AppendBuffer` specifies |
| SdLogger.SDLogger.WriteData | src/sd_logger.cpp:195-255 | `write_data` in place, as `WriteSpec` specifies, keeping file ++ buffer = every byte accepted since start |
| SdLogger.SDLogger.Copy | src/sd_logger.cpp:202-251 | `memcpy` places the data after the first `at` bytes, which stay as they were |
| SdLogger.SDLogger.Flush | src/sd_logger.cpp:263-296 | `flush` in place, as `FlushSpec` specifies |
| SdLogger.SDLogger.Close | src/sd_logger.cpp:176-185 | `close` in place, as `CloseSpec` specifies |
| SdLogger.SDLogger.Restart | src/sd_logger.cpp:161-168 | `restart` in place, as `RestartSpec` specifies |
| ScrnMain.SetSatSpec | src/scrn_main.cpp:162-205 | -1 iff the PRN is not positive, the elevation is outside 0..90, or the PRN is absent and no slot is free; the table is then unchanged |
| ScrnMain.SetSatFindsSatellite | src/scrn_main.cpp:181-204 | a successful call writes the satellite into the first slot already holding its PRN, or else into the first free (PRN 0) slot, with the new position and SNR; every other slot is unchanged. Unique PRNs stay unique |
| ScrnMain.RemoveForgetsSatellite | src/scrn_main.cpp:207-222 | removal succeeds iff the PRN is present; the first matching slot gets PRN and position 0 but keeps its SNR, every other slot is unchanged, and a positive PRN is then gone. Unique PRNs stay unique, and a miss changes nothing |
| ScrnMain.FeedSatellitesKeepsUnique | src/scrn_main.cpp:443-453 | feeding a track's satellites keeps PRNs unique |
| ScrnMain.FeedTracksKeepsUnique | src/scrn_main.cpp:434-456 | feeding a constellation's tracks keeps PRNs unique |
| ScrnMain.LedCountsDown | src/scrn_main.cpp:404-410 | while time remains, each loop takes 10 ms off and leaves the LED as it was |
| ScrnMain.LedOffAfterTenLoops | src/scrn_main.cpp:404-410 | after a trigger the LED stays lit for nine loops; the tenth switches it off at duration 0, where it stays |
| ScrnMain.SatelliteDisplay.constructor | src/scrn_main.cpp:133-141 | all 32 slots empty, so PRNs are unique |
| ScrnMain.SatelliteDisplay.Scan | src/scrn_main.cpp:182-191 | the loop finds the first slot holding the PRN, or none |
| ScrnMain.SatelliteDisplay.SetSatPos | src/scrn_main.cpp:162-205 | `set_sat_pos` in place, as `SetSatSpec` specifies |
| ScrnMain.SatelliteDisplay.RemoveSat | src/scrn_main.cpp:207-222 | `remove_sat` in place, as `RemoveSpec` specifies |
| ScrnMain.ScreenMain.LedTrigger | src/scrn_main.cpp:325-329 | the LED on for 100 ms |
| ScrnMain.ScreenMain.LedTick | src/scrn_main.cpp:404-410 | the countdown step `LedStep` |
| ScrnMain.ScreenMain.UpdateSatellite | src/scrn_main.cpp:434-456 | each track in list order, with its satellites 0..`num_sats`-1, fed to `set_sat_pos` |
| ScrnMain.ScreenMain.UpdateSatelliteAll | src/scrn_main.cpp:458-466 | the 3-second ageing sweep, then the five constellations in catalog order |
| ScrnMain.ScreenMain.Refresh | src/scrn_main.cpp:350-355 | the plot is refreshed iff the update counter differs from the last one seen, which is then remembered; on a refresh each of the five lists is aged with `ClearOld` at 3 seconds and the plot is `FeedCatalog` of the aged catalog; otherwise catalog and plot are unchanged |

## Left out

- Floating-point values are not computed:
  - latitude/longitude degree-minute conversion;
  - `atof` of HDOP, altitude and geoid separation, and the feet-to-metre scaling;
  - the `set_sat_pos` trigonometry.
  Coordinates are kept as their field text with a hemisphere or unit flag, and the plot position is an input function. `NmeaDecode.RmcLatitude`, `RmcLongitude`, `GgaLatitude`, `GgaLongitude`, `GgaHdop`, `GgaAltitude` and `GgaGeoid` therefore state the text and flags, not the numbers.
- Operating-system time services are parameters, not models: `millis`, `micros`, `gettimeofday`, `mktime` with its TZ environment, `settimeofday` and `adjtime`. The calendar conversion is not modelled, and `time_t` is taken to be wide enough for epoch + 9 h.
- Concurrency is not modelled. The PPS interrupt is a method called between other calls. The FreeRTOS sampler and logger tasks, `SensorLogger::start`/`stop` and the mutexes (including `IMUFifo`'s lock and unlock) are left out, because their scheduling cannot be expressed in sequential Dafny.
- The following hardware and UI code is left out, because it only drives peripherals and draws:
  - RTC register reads and writes (the RTC write is modelled as an event of `GnssClock.Loop`);
  - BMP280/IMU/battery sampling, `setup`, the serial bypass, buttons and shutdown;
  - LVGL drawing (`paint_canvas`, labels, `set_sync_state` colours, `set_sdcard_status`);
  - the clock and position text on the main screen.
- `log_position_data`, the position log line, and the per-byte copy of the raw NMEA stream to the SD log inside `gnss_poll` are not wired into `GnssClock.Poll`. The SD logger itself is modelled on its own.
- SD library details are left out: file names, prefixes and `strftime`. A file is the byte sequence it holds, and each open or write outcome is a parameter.
- The framer's `default` branch is left out, because the state is a datatype with exactly the seven reachable states.
- `GnssMain.GnssClock.Loop` does not model the once-a-second sensor update or the screen manager.
- The GSV `NULL`-pointer checks are left out, because Dafny references here are never null.
- `nmea_extract_field` on a NULL output is likewise left out; a zero output size is modelled.
- `sd_is_fault` is not a separate member; it is the `fault` field of `SdLogger.SdCard`.
- `NmeaGsv.ClearOld`, `NmeaGsv.GsvCatalog.ClearOldAll`: one clock reading stands for the per-node reads. The source calls `nmea_get_current_time_ms()` afresh for every track as it recurses down a list (src/nmea_parser.c:393, :403) and again for each of the five lists (:416-420), so a track later in the sweep may be judged against a slightly later time than the one the model uses for all of them.
