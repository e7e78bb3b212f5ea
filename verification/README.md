# Device wire codecs and the test panel, verified

The repository simulates two kinds of vehicle trackers over TCP and runs end-to-end
scenarios against a server.  This project models the two parts of it that hold logic of
their own.

**The wire.**  `clients/gateway.go` builds Teltonika Codec 8 data and Ruptela command 1
payloads, computes two CRC-16 checksums bit by bit, and frames the result.

- `BitString`, `Word16`, `Gf2`: bit strings, 16-bit words, polynomials over GF(2).
- `Crc16`, `CrcRemainder`, `CrcOrder`, `CrcDetection`, `CrcDistance`, `CrcVectors`: the two
  loops, and what they compute and detect.  One bit-serial specification, `Crc16.Crc`, serves
  both; it is proved to be the polynomial remainder.
- `Wire`, `Records`, `Samples`, `Decimals`, `Imei`, `Teltonika`, `Ruptela`: big-endian fields,
  counted IO groups, records, value conversions, decimal text, the two builders, and decoders
  for the two layouts.
- `Framing`, `Streams`, `Sessions`, `Delivery`: the senders' framing, an incremental receiver,
  and the way from samples to readings.
- `FrameErrors`, `FrameBursts`, `HiddenChanges`, `CommandBursts`, `UnnoticedDamage`: what
  damage to a frame the receiver notices, and what it misses.

**The runs.**  `panel.go` admits one test run at a time, follows `go test -json`, summarises,
sorts and keeps a bounded history; `report/generate.go` is its batch twin.

- `TestEvents`, `Summaries`, `Reports`, `BatchReport`: the event fold over records updated in
  place, the summary, the two programs' pipelines, and exactly when two reports are equal.
- `Histories`, `Panel`, `PanelRuns`: the history window and its identifiers, the critical
  sections on the shared state, and every interleaving of them.

Where the code and its comments disagree, the model follows the code:

- `clients/gateway.go:226-229` describes the identity as digits read as hexadecimal; lines
  249-253 read it as decimal.
- `clients/gateway.go:184` says connecting sends a device identity; lines 185-192 send nothing.
- `panel.go:325` has no rank for a test without a final status, so it ranks with the failures.

Promises that the code keeps only under a condition, with the exact condition:

- Two different messages of one length and their checksums differ in at least four bits:
  exactly up to 4093 bytes (`CrcDistance.DistanceFourExactly`).
- A sixteen-bit burst in a command frame's payload and checksum field is noticed: exactly unless
  it is one of twelve changes of the last two payload bytes and the field, because the field is
  sent high byte first (`CommandBursts.CommandBurstAccepted`).  A data packet notices all.
- The panel and the batch program report the same of one output: exactly if the lines that each
  decodes tell the same of every top-level test (whether it has events, its last final status and
  time, its joined output) and of the package (its last final time)
  (`BatchReport.TwinsAgreeExactly`).
- A string comes back as the identity: exactly if it has fifteen digits, or more digits with no
  leading zero and a value that fits 64 bits (`Imei.IdentityRoundTrip`).
- A frame is recovered: exactly if its payload's length fits the length field
  (`Framing.FrameBijective`).
- A value is recovered from its field: exactly if it was in the field's range
  (`Samples.UnsignedExact`).
- Retained runs have distinct identifiers: exactly up to 101 completed runs
  (`Histories.IdsDistinctExactly`); the page of a run's own identifier shows that run
  exactly if it is among the first 101 or is the oldest one retained (`Panel.OwnPageExactly`).
- The percentages add up to 100: exactly if there are top-level tests and each of them finished
  (`Summaries.PercentagesBound`).

## Model

| member | source | states |
|---|---|---|
| `Crc16.Crc16Ibm` | clients/gateway.go:328-341 | The nested byte and bit loop over one register computes the checksum that feeding the data bit by bit, low bit first, gives for 0xA001 |
| `Crc16.Crc16Kermit` | clients/gateway.go:348-362 | The same for 0x8408 |
| `Crc16.ShiftFeedsBits` | clients/gateway.go:331-338 | Xoring a whole value into the register and then stepping is the same as feeding its bits one at a time |
| `Crc16.RunLinear` | clients/gateway.go:332-338 | From xored registers, over xored inputs of one length, the register ends as the xor of the two ends |
| `Crc16.RunConcat` | clients/gateway.go:330-339 | The register over a concatenation is the run over the second part from where the first part ended |
| `CrcRemainder.GeneratorTerms` | clients/gateway.go:326-349 | 0xA001 and 0x8408 are the reflected x^16+x^15+x^2+1 and x^16+x^12+x^5+1, coefficient by coefficient |
| `CrcRemainder.CrcIsRemainder` | clients/gateway.go:326-362 | For every message M the checksum, its bits reversed, is the remainder of M times x^16 by the generator, and nothing else is |
| `Gf2.DivisionUnique` | clients/gateway.go:326-327 | Division by a monic polynomial over GF(2) has one quotient and one remainder |
| `CrcOrder.OrderOfX` | clients/gateway.go:333-337 | Modulo either generator x^k is 1 exactly when 32767 divides k |
| `CrcOrder.ShiftInjective` | clients/gateway.go:332-338 | Stepping with zero input loses nothing: different registers stay different for any number of steps |
| `CrcDetection.CrcLinear` | clients/gateway.go:328-362 | The checksum of the xor of two messages of one length is the xor of their checksums |
| `CrcDetection.CrcConcat` | clients/gateway.go:328-362 | The checksum of a concatenation is the register run over the second part from the checksum of the first |
| `CrcDetection.Residue` | clients/gateway.go:328-362 | Data followed by two bytes has checksum zero exactly when those are its checksum's low and then high byte |
| `CrcDetection.BigEndianResidue` | clients/gateway.go:201-202 | The two-byte big-endian trailer, swapped, brings the register to zero; as sent it does so only if its two bytes are equal |
| `CrcDetection.CrcParity` | clients/gateway.go:333-337 | The checksum has an odd number of set bits exactly when the message has |
| `CrcDetection.OddErrorsDetected` | clients/gateway.go:351-359 | Messages of one length that differ in an odd number of bits have different checksums |
| `CrcDistance.BurstDetected` | clients/gateway.go:330-338 | At any length, a change confined to 16 consecutive bits, low bit first in each byte, changes the checksum |
| `CrcDistance.FedToZero` | clients/gateway.go:351-359 | At most 16 input bits that bring a register to zero are the register's own low bits, and its other bits were zero |
| `CrcDistance.MinimumDistance` | clients/gateway.go:328-362 | Different messages of one length up to 4093 bytes differ, together with their checksums, in at least four bits |
| `CrcDistance.CloseMessages` | clients/gateway.go:328-362 | At every greater length there are two messages that differ, with their checksums, in two bits |
| `CrcDistance.DistanceFourExactly` | clients/gateway.go:328-362 | Distance four holds at a length exactly up to 4093 bytes |
| `CrcDistance.DistanceFourAttained` | clients/gateway.go:328-362 | At every positive length some two messages are at distance four, so no greater distance holds anywhere |
| `CrcDistance.SmallErrorsDetected` | clients/gateway.go:343-347 | A message and checksum with one to three changed bits, wherever they are, no longer match |
| `CrcVectors.SmallVectors` | scenarios/crc_vectors_test.go:34-36 | The vectors for the empty message and the two one-byte messages |
| `CrcVectors.CheckString` | scenarios/crc_vectors_test.go:37 | The check value of the nine characters 123456789 |
| `CrcVectors.MinimalPacket` | scenarios/crc_vectors_test.go:38 | The check value of a minimal Codec 8 data part |
| `Wire.PutUint` | clients/gateway.go:116-136 | Writing an unsigned value big-endian into a scratch buffer overwrites exactly its bytes with the value's low bytes |
| `Wire.GetPut` | clients/gateway.go:116-117 | A value below 256^k reads back from the k bytes it was written into |
| `Wire.FieldsRoundTrip` | clients/gateway.go:115-136 | A row of fields written at their widths reads back, whatever follows |
| `Wire.FieldsCanonical` | clients/gateway.go:115-136 | Bytes that read as a row of fields are the one way to write it |
| `Wire.GroupsRoundTrip` | clients/gateway.go:235-241 | Counted groups of identified values read back by their counts alone, whatever follows |
| `Wire.GroupsCanonical` | clients/gateway.go:235-241 | Bytes that read as counted groups are the one way to write them |
| `Records.Codec8Bijective` | clients/gateway.go:108-138 | Bytes decode to records exactly when the records fit, state their own totals, and the bytes are their one encoding, with header and footer counts alike |
| `Records.RuptelaBijective` | clients/gateway.go:231-261 | Bytes decode to a payload exactly when it fits and they are its one encoding |
| `Samples.CoordinateBound` | clients/gateway.go:122-128 | A scaled, truncated, reinterpreted and sent coordinate returns within 1e-7 degrees, never larger in magnitude nor of the other sign |
| `Samples.SignedUnsigned` | clients/gateway.go:273-278 | Every signed 32-bit value survives its reinterpretation as unsigned and back |
| `Samples.GeographicIsEncodable` | clients/gateway.go:122-123 | Every latitude and longitude scales into 32 bits |
| `Samples.UnsignedExact` | clients/gateway.go:132-136 | An integer keeps its value in a field exactly when it is in the field's range |
| `Teltonika.BuildCodec8Record` | clients/gateway.go:107-174 | The builder's appends, through its reused scratch buffers, give 47 bytes that decode to one record of the sample |
| `Teltonika.Codec8RoundTrip` | clients/gateway.go:107-174 | Decoding by embedded counts consumes all 47 bytes, the stated total is the sum of the group counts, and the reading has the sample's time, coordinates, heading, speed, ignition, movement, voltage and odometer |
| `Decimals.ScanDigits` | clients/gateway.go:249-250 | Scanning takes exactly the leading digits, and gives nothing when their value is too large |
| `Imei.IdentityRoundTrip` | clients/gateway.go:244-253 | Any string scanned to 64 bits and printed with at least fifteen digits is unchanged exactly under the condition above |
| `Ruptela.BuildRuptelaPayload` | clients/gateway.go:223-324 | The builder's appends give 50 bytes that decode to the identity and one record of the sample |
| `Ruptela.RuptelaRoundTrip` | clients/gateway.go:223-324 | The 50 bytes decode to the sample's reading, and to the given identity exactly under the condition above |
| `Framing.SendPacket` | clients/gateway.go:81-91 | The packet filled in place is preamble, length, data and the IBM checksum in four bytes |
| `Framing.SendRecord` | clients/gateway.go:195-202 | The frame filled in place is length, payload and the Kermit checksum in two bytes |
| `Framing.Greet` | clients/gateway.go:41-45 | The handshake filled in place is length and identity |
| `Framing.FrameBijective` | clients/gateway.go:82-91 | A payload is cut off a buffer exactly when it fits its length field and the buffer starts with its frame; what follows is left |
| `Framing.PartialFrameWaits` | clients/gateway.go:197-202 | A proper beginning of a frame is neither rejected nor taken for a frame |
| `Streams.ChunkingIrrelevant` | clients/gateway.go:93 | For all bytes, valid or not, the receiver's state depends only on their concatenation, not on the chunks |
| `Streams.SegmentedDelivery` | clients/gateway.go:204 | From any beginning of any sequence of frames, in any chunks, exactly the complete frames are recovered, and what is left is a proper beginning of the next |
| `Sessions.SessionDelivery` | clients/gateway.go:41-47 | The same for a handshake followed by packets, with no identity before the handshake is complete |
| `FrameErrors.FieldDistance` | clients/gateway.go:91 | Two checksum fields, of two or four bytes, differ in as many bits as the checksums |
| `FrameErrors.DamagedFrameRejected` | clients/gateway.go:343-347 | A frame of up to 4093 payload bytes with its length field intact is rejected whenever one to three of its other bits are changed |
| `FrameBursts.PacketBurstRejected` | clients/gateway.go:81-91 | A data packet of any length, its payload and checksum field changed within sixteen consecutive bits, is rejected |
| `CommandBursts.CommandBurstAccepted` | clients/gateway.go:197-202 | A command frame so changed is accepted exactly for the twelve changes listed, and rejected otherwise |
| `CommandBursts.ShortCommandBurst` | clients/gateway.go:197-202 | A change of payload and field within twelve consecutive bits never matches, at any length |
| `HiddenChanges.HiddenExactly` | clients/gateway.go:348-362 | Within a burst the checksum, its bytes swapped, changes as the field does exactly in the twelve listed cases |
| `UnnoticedDamage.ThirteenBitsAccepted` | clients/gateway.go:197-202 | A burst of thirteen bits that a command frame accepts |
| `UnnoticedDamage.LengthDamageAccepted` | clients/gateway.go:84-91 | One changed bit of a packet's length field that is accepted |
| `Delivery.TeltonikaDelivered` | clients/gateway.go:68-72 | A whole session of any reports, in any chunks, ends with the identity and one packet per report that decodes to that report's reading |
| `Delivery.RuptelaDelivered` | clients/gateway.go:195-202 | Any reports of a device with any identity, in any chunks, decode in order to their readings and to one printed identity, which is the device's exactly under the condition above |
| `TestEvents.TestRecord.constructor` | panel.go:280 | A test starts with its name and nothing else |
| `TestEvents.TestRecord.Update` | panel.go:284-296 | A final event sets status and time, an output event extends the output, any other changes nothing |
| `TestEvents.Note` | panel.go:279-296 | An event updates its own test's record, created at need, and no other |
| `TestEvents.GatherLines` | panel.go:249-297 | The loop over the lines, updating records through a map of references, leaves the fold of the lines' events |
| `TestEvents.GatheredResult` | panel.go:279-296 | A test has a result exactly when it has events, and that result is the fold of its own events alone |
| `TestEvents.GatheredDuration` | panel.go:272-277 | The duration is the fold of the package's own events alone |
| `TestEvents.InterleavingIrrelevant` | panel.go:255-297 | Two event streams with the same events test by test, however interleaved, gather the same |
| `TestEvents.ResultParts` | panel.go:279-296 | A result is its name, what the last final event says, and the joined outputs |
| `TestEvents.LastFinalWins` | panel.go:284-293 | A test's status and time are those of its last final event |
| `TestEvents.NameAndOutput` | panel.go:294-295 | A test's output is the concatenation of its output events |
| `TestEvents.UnfinishedMeaning` | panel.go:284-296 | A test has no status exactly when it has no final event |
| `Summaries.BeforeIsStrictOrder` | panel.go:324-330 | The comparison, in which an unfinished test ranks with the failed ones, is a strict order that compares any two results of different names |
| `Summaries.ListingUnique` | panel.go:308-330 | Results of distinct names have one sorted listing, whatever the map order and however the sort works |
| `Summaries.ListingExists` | panel.go:324-330 | Any results can be arranged so that the sort's promise holds |
| `Summaries.SummaryUnique` | panel.go:308-330 | One map of results has one summary: the same list and the same counters |
| `Summaries.Conservation` | panel.go:308-322 | The total is the number of listed tests and the sum of passed, failed, skipped and unfinished |
| `Summaries.PercentagesBound` | report/generate.go:114-118 | The three percentages add up to between 0 and 100, and to 100 exactly under the condition above |
| `Summaries.Sort` | panel.go:324-330 | Sorting may return any rearrangement without an inversion |
| `Summaries.Summarise` | panel.go:308-330 | Visiting the records in any order and sorting in any way gives the sorted list of the top-level tests and counters that count them |
| `Reports.Evaluate` | panel.go:249-330 | From lines to duration and summary, as one run does it locally |
| `Reports.ReportsEqualExactly` | panel.go:255-330 | Any two outputs have equal reports exactly when they tell the same of every top-level test and of the package |
| `Reports.ReportDeterministic` | panel.go:255-330 | Two runs with the same events test by test have equal reports, whatever the interleaving, map order and sort |
| `BatchReport.ReadEvents` | report/generate.go:48-87 | The batch program's own loop leaves the fold of the events it decodes, time and package included |
| `BatchReport.CountResults` | report/generate.go:98-112 | Its second loop lists the top-level results and counts them, in any visiting order |
| `BatchReport.GenerateReport` | report/generate.go:47-146 | Its report of the lines it decodes, with the shares; it exits with 1 exactly when the page cannot be written or some top-level test's status is fail |
| `BatchReport.TwinsAgreeExactly` | report/generate.go:54-126 | On any output both programs report the same list, counters and duration exactly under the condition above |
| `BatchReport.TwinsAgree` | report/generate.go:17-24 | In particular when the time and package of every event line decode |
| `BatchReport.TwinsDiffer` | report/generate.go:17-24 | A line with a malformed time is an event to the panel only, and the totals differ |
| `Histories.HistoryLaw` | panel.go:332-338 | From any loaded history and after any runs: the last hundred of the loaded entries and the runs, numbered by a closed formula |
| `Histories.HistoryFromEmpty` | panel.go:332-338 | From an empty history, the k-th run has identifier min(k, 101), and the last hundred runs are retained in order |
| `Histories.IdsDistinctExactly` | panel.go:333-338 | Retained identifiers are pairwise distinct exactly while at most 101 runs completed |
| `Histories.LookupFirst` | panel.go:202-208 | The first entry with its identifier is the one that looking up the identifier returns |
| `Histories.PositionIsFirst` | panel.go:202-208 | The position a lookup finds has the identifier, and no earlier one does |
| `Histories.LookupAbsent` | panel.go:202-209 | It finds nothing exactly when no entry has the identifier |
| `Histories.RetrievableExactly` | panel.go:202-208 | Looking up a retained run's own identifier finds its position exactly when it is among the first 101 or the oldest retained |
| `Panel.State.constructor` | panel.go:56-57 | The panel starts idle, with an empty log and the loaded history |
| `Panel.State.HandleRun` | panel.go:106-136 | Only a POST to an idle panel starts a run; it closes the gate and clears the log, and every other request changes nothing |
| `Panel.State.Abandon` | panel.go:232-247 | A failed start opens the gate, leaves its error in the log and keeps the history |
| `Panel.State.Log` | panel.go:258-260 | A line extends the log by itself and a line feed, and changes nothing else |
| `Panel.State.Commit` | panel.go:332-341 | A finished run is numbered, appended and trimmed to a hundred, and the gate opens |
| `Panel.State.HistoryDetail` | panel.go:188-210 | The answer is the oldest entry with the identifier the path asks for, not found, or a missing identifier |
| `Panel.RequestOf` | panel.go:192-200 | The path with a number's digits, whatever segments follow, asks for that number |
| `Panel.OwnPageExactly` | panel.go:188-210 | The path of a retained run's identifier asks for it, and finds that very run exactly when it is among the first 101 or the oldest retained |
| `PanelRuns.ExclusiveRuns` | panel.go:112-132 | In every interleaving, accepted runs that have not ended number one while the gate is closed and none while it is open |
| `PanelRuns.LogPurity` | panel.go:119-260 | In every reachable state the log is exactly the lines of the last accepted run, or its start error, never another run's |
| `PanelRuns.CommitReportsTheLog` | panel.go:255-341 | Whenever a run commits, the summary and duration it records are the report of exactly the lines the log then shows |
| `PanelRuns.HistoryFaithful` | panel.go:332-341 | After any interleaving the history is the last hundred of the loaded and committed runs, in order of acceptance, numbered by the law, each the report of its own lines |
| `PanelRuns.GateReopens` | panel.go:112-341 | From every reachable state some continuation opens the gate again |

## Left out

- Connections: dialling, deadlines, and reading acknowledgements (`clients/gateway.go:47-65`, 93-104, 204-213). Frames are byte sequences, and the clock is a parameter.
- The receiving side of the protocols is not in the repository. The decoders and the incremental receiver are written from the layouts in the comments at `clients/gateway.go:82`, 108-138, 197 and 224-254.
- The battery voltage, which both builders accept and never encode: no round trip recovers it.
- Rounding of `lat * 1e7` in floating point: coordinates are real numbers. The builders require a scaled value within 32 bits, because Go leaves the conversion of a larger float open; every place on Earth meets this.
- Scanning and printing numbers (`fmt.Sscanf` with `%d`, `%015d`) follow the Go library, whose code is not part of this model: blanks, a sign where the variable is signed, then decimal digits.
- Streams.SegmentedDelivery: each payload must fit its length field. A longer one is sent with a wrong length, which `Framing.FrameBijective` shows is never recovered as that frame.
- FrameErrors.DamagedFrameRejected: assumes the length field intact, because the checksum does not cover it (`UnnoticedDamage.LengthDamageAccepted`).
- PanelRuns.GateReopens: says that a continuation exists, not that the child process ends.
- PanelRuns.LogPurity: the interleavings are those of whole critical sections, which the mutex makes indivisible, and of the goroutine's own work between them.
- Sorting is any rearrangement without an inversion, not the library's algorithm, which promises no more.
- JSON decoding, line-length limits, the child process and its environment. A line carries its decoded event and whether its time and package decode; actions and statuses are enumerations.
- Durations are real numbers.
- Loading and saving the history file (`panel.go:71-82`): the loaded history is a parameter.
- The handlers that only render shared state (`panel.go:84-104`, 138-186) and the HTML pages of both programs.
- `clients/api.go`, `clients/ws.go`, `checks/` and `config/`: wrappers over libraries, with easy members only.
- `scenarios/`: assertions about a remote server, except the checksum vectors.
