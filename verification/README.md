# Verification of tensite-bms-ble

A Dafny model of the library that reads Tensite / UhomeEnergy battery clusters over Bluetooth LE, with
proofs about it. It covers the path from raw notification bytes to the readings a consumer receives:

- the `5E .. 7E` frame format: byte stuffing with two escape prefixes, the length and CRC-16/ARC gates, and
  the incremental, resynchronising parser that consumes a growing buffer in place;
- the payload mask and the payload decoders;
- the assembler that accumulates frames into a picture of the bank, and the merge of two polls;
- the update throttle of a held connection and its reconnect backoff;
- the alarm bitfield.

`dafny verify dfyconfig.toml` checks everything.

## How it is organised

| file | content |
|---|---|
| `Bytes`, `Powers`, `Wrappers` | bytes, big-endian words, ASCII text, powers of two, options and results |
| `Crc16` | the checksum loop; linearity, adjacent-byte damage, bursts of 16 bits, parity, the check value |
| `Stuffing` | the stuffing loops against recursive functions, and their bijection |
| `Framing` | what a frame in a byte stream is, without any parsing algorithm |
| `Chunking` | cutting a stream in pieces changes neither its frames nor its leftover |
| `Scanning`, `Tallying`, `Parser` | the scan, what it counts, and `parse_frames` itself on a mutable buffer |
| `Encoding`, `Requests`, `ErrorDetection` | building frames, round trips in any surroundings, rejected damage |
| `Masking`, `Payloads` | the generated mask and the decoders with their inverses |
| `Telemetry` | what each kind of frame tells of its battery, in ids, offsets and numbers |
| `Readings` | battery and cluster readings and `merge_readings` |
| `Accumulation`, `Runs`, `Assembler` | the pure fold over a frame history, whole runs, and the mutable assembler |
| `Agreement` | merging two polls against accumulating both |
| `Throttle`, `Stream`, `Backoff` | the held connection as a timed state machine, its class, and the retry loop |
| `Lapses` | two concrete runs that show where the stream's promises end |
| `Alarms` | the alarm table, conservation of bits, decoding against packing |

Classes and loops of the source are classes and loops here (`ByteBuffer`, `ParseStats`,
`ReadingAssembler`, `TensiteClusterStream`, `ParseFrames`, `MergeReadings`, `UnmappedBits`, ...). Each is
verified against a function of its inputs or its old state, and the properties are proved about that
function. Bit-level facts are proved once about named functions; inductive proofs hide them.

`Framing.Frames(s)` and `Framing.Leftover(s)` are defined from `Framing.IsFrame` alone, which says that
`5E ++ Stuff(body) ++ 7E` stands at a position with a length- and checksum-valid body. The parser never
appears in that definition.

## Where the code and its documentation differ

The model follows the code.

- `README.md` of the library describes the mask as a fixed 32-byte keystream and pack telemetry as not
  decoded. The code generates a mask of any length and decodes the telemetry frames.
- The docstring of `Topology` says only the first 39 payload bytes can be unmasked. The code unmasks all.

## Properties that hold only under a condition

Each of these has an exact condition, and a failing input.

- Rejected candidates stay in the buffer until a later frame flushes them out, and are counted again on
  every call. The counters are independent of the cut if and only if the scan rejects no candidate in the
  leftover: `Tallying.CountersInvariantIff`, failing at `5E 5E` in `Tallying.CutShortCountedTwice`.
- The checksum misses some damage to the last payload byte together with the stored checksum. The exact places
  are given for two adjacent bytes by `ErrorDetection.PairDamageRejectedIff`, failing in
  `ErrorDetection.StraddleAccepted`, and for sixteen bits at any offset by `ErrorDetection.BitBurstRejectedIff`,
  failing in `ErrorDetection.UncoveredBurst`.
- Merging two polls is not always what one assembler fed both would say. `Agreement.MergeIsAccumulationIff`
  gives the exact condition for a whole reading, times aside, from one guard for each of its parts:
  - the batteries, since the merge takes falsy values of the later poll for absent ones and cannot carry what
    a poll gathered but did not show: `Agreement.MergeAgreesIff`, failing in `Agreement.MoveToZeroIsLost`;
  - the roster, since the merge takes the latest claim, and never sees the claim of a poll that has no
    reading: `Agreement.RosterAgreesIff`, failing in `Agreement.LoneClaimIsLost`;
  - the master, since the merge takes the later poll's: `Agreement.MasterAgreesIff`, failing in
    `Agreement.SecondGatewayDisagrees`;
  - the order of the dict, on which `cluster_id` depends, since the merge lists a battery when it is first
    shown, the assembler when it is first heard: `Agreement.OrderAgreesIff`, failing in
    `Agreement.ShownLateDisagrees`.
- A position is overwritten by every telemetry frame of a battery, even one that no decoder accepts and that
  therefore causes no update (`Accumulation.PositionAfter`), and the master follows from the positions. So
  the last update can name a position or a master that no longer holds. It says all the present reading
  says if and only if no frame heard since leaves a battery it shows at another position:
  `Throttle.NoLostUpdate`, and for one feed `Throttle.UnchangedFeedIff`; failing in
  `Lapses.MovedGatewayIsNotReported`.
- A change is handed on if and only if no timer was armed when it came, or the timer fires before its
  connection ends: `Throttle.ChangeDeliveredIff`. A change still waiting when the connection is torn down
  is lost: nothing is handed on before the next open (`Throttle.TeardownLosesWaiting`), and what the surviving
  timer hands on after it shows only what came in later (`Throttle.OnlyLaterIsHandedOn`). A run that loses a
  change is `Lapses.DropLosesChange`.
- The closed form of the backoff needs the initial value not to exceed the maximum, and otherwise fails
  for the first sleep already: `Backoff.BackoffFormulaIff`.

## Model

| member | source | states |
|---|---|---|
| Stuffing.StuffBytes | src/tensite_bms_ble/protocol.py:248-264 | The loop with its early return computes the byte-by-byte stuffing. |
| Stuffing.UnstuffBytes | src/tensite_bms_ble/protocol.py:267-289 | The loop with its early return computes unstuffing, None on exactly the malformed escapes. |
| Stuffing.UnstuffStuff | src/tensite_bms_ble/protocol.py:240-289 | Unstuffing undoes stuffing for every byte string. |
| Stuffing.StuffFlagFree | src/tensite_bms_ble/protocol.py:248-264 | A stuffed string contains neither 5E nor 7E and is at most twice as long. |
| Stuffing.StuffUnstuff | src/tensite_bms_ble/protocol.py:240-289 | Whatever unstuffs is the one wire form of its body if and only if no flag byte occurs in it. |
| Stuffing.StuffInjective | src/tensite_bms_ble/protocol.py:240-264 | Two bodies never share a wire form. |
| Stuffing.WireTable | src/tensite_bms_ble/const.py:117-137 | On the wire 7E is 7D 01, 5E is 5D 01, 7D is 7D 02, 5D is 5D 02, and every other byte is itself. |
| Stuffing.WireTableInPlace | src/tensite_bms_ble/protocol.py:240-289 | The same at any place of a body, in both directions. |
| Stuffing.UnstuffTable | src/tensite_bms_ble/protocol.py:267-289 | Reading from the left: after a prefix only 01 and 02 are codes, and a prefix at the end is malformed. |
| Crc16.Crc16Arc | src/tensite_bms_ble/protocol.py:79-90 | The nested loops compute the register fold over all bytes. |
| Crc16.CheckValue | src/tensite_bms_ble/protocol.py:79-90 | The register is CRC-16/ARC: "123456789" gives BB3D. |
| Crc16.CrcLinear | src/tensite_bms_ble/protocol.py:79-90 | The checksum of the exclusive or of two equally long messages is the exclusive or of their checksums, from any registers. |
| Crc16.BurstChangesCrc | src/tensite_bms_ble/protocol.py:79-90 | Messages that differ only inside two adjacent bytes have different checksums. |
| Crc16.BitBurstChangesCrc | src/tensite_bms_ble/protocol.py:79-90 | Messages that differ only inside sixteen consecutive bits, starting at any bit of any byte, have different checksums. |
| Crc16.CrcParity | src/tensite_bms_ble/protocol.py:79-90 | The register's bit parity is the parity of all one bits processed. |
| ErrorDetection.AcceptedIsEven | src/tensite_bms_ble/protocol.py:373-380 | Every accepted body, checksum included, has an even number of one bits. |
| ErrorDetection.OddFlipsRejected | src/tensite_bms_ble/protocol.py:373-380 | Any odd number of bit flips in an accepted body is rejected. |
| ErrorDetection.PairDamageRejectedIff | src/tensite_bms_ble/protocol.py:373-380 | Damage inside two given adjacent bytes of an accepted body is always rejected if and only if they are not its last payload byte and its high checksum byte. |
| ErrorDetection.StraddleAccepted | src/tensite_bms_ble/protocol.py:373-380 | For that one pair, a concrete change to any accepted body with a payload that the gates let through. |
| ErrorDetection.BitBurstRejectedIff | src/tensite_bms_ble/protocol.py:373-380 | All bursts of up to sixteen bits at a given byte and bit offset of an accepted body are rejected if and only if they lie before the stored checksum, reach at most two bits into it or lie inside it, or there is no payload. |
| ErrorDetection.UncoveredBurst | src/tensite_bms_ble/protocol.py:373-380 | At every other place, a burst that turns any accepted body into another one. |
| Framing.HitsExactly | src/tensite_bms_ble/protocol.py:292-335 | The frames of a stream are all its occurrences of start, stuffed valid body and end, only those, left to right and disjoint. |
| Framing.ExactlyUnique | src/tensite_bms_ble/protocol.py:292-335 | There is only one such list. |
| Framing.ExactlyDetermines | src/tensite_bms_ble/protocol.py:292-335 | Any list that is exactly the occurrences gives the decoded frames and where the leftover begins. |
| Framing.FramesDisjoint | src/tensite_bms_ble/protocol.py:292-335 | Two valid frames in a stream never overlap, and at one start there is only one. |
| Framing.GatesInBytes | src/tensite_bms_ble/protocol.py:366-380 | A length of at most 512 in bytes 33 and 34, a body 37 bytes longer, and as its last two bytes the checksum of all before, high byte first. |
| Framing.FieldsInBytes | src/tensite_bms_ble/protocol.py:382-389 | The offsets of id, serial, position, sequence number and payload. |
| Bytes.DecodedByte | src/tensite_bms_ble/protocol.py:385 | In a serial, bytes below 128 stand for themselves and all others for U+FFFD. |
| Scanning.FindFrameEnd | src/tensite_bms_ble/protocol.py:343-360 | The scanning loop, with its skip of two after a prefix, gives the recursive scan's ending. |
| Scanning.FirstUnescapedFlag | src/tensite_bms_ble/protocol.py:343-360 | The scan finds an end byte exactly if everything before it splits into plain bytes and escape pairs; a start byte in that place cuts the candidate short. |
| Scanning.WaitingMeansNoFlag | src/tensite_bms_ble/protocol.py:343-360 | The scan asks for more data exactly when no unescaped flag is left in the buffer. |
| Scanning.ScanSync | src/tensite_bms_ble/protocol.py:343-360 | A scan that jumps over a start byte behind an escape prefix ends exactly as one begun just after that start byte. |
| Scanning.WaitingIsFinal | src/tensite_bms_ble/protocol.py:314-324 | Once one start byte has no end in sight, no later one has: the runaway cut and the early stop lose nothing. |
| Scanning.AcceptsExactlyFrames | src/tensite_bms_ble/protocol.py:314-333 | The candidate test accepts a position if and only if a valid frame lies there, with that end and body. |
| Parser.ByteBuffer.Find | src/tensite_bms_ble/protocol.py:311 | The first occurrence at or after an index, or -1 if there is none. |
| Parser.DecodeFrame | src/tensite_bms_ble/protocol.py:363-389 | Yields the decoded frame exactly for valid bodies and counts exactly one reason otherwise, none for a too short body. |
| Parser.ParseFrames | src/tensite_bms_ble/protocol.py:292-335 | Returns exactly the frames of the buffer, leaves exactly the leftover, and counts every position once by its outcome. |
| Parser.PassWaiting | src/tensite_bms_ble/protocol.py:320-324 | At a candidate without an end, moving on by one and stopping give the same frames, consumed prefix and counters. |
| Parser.ParseStats.NoteUnhandled | src/tensite_bms_ble/protocol.py:143-144 | One more under the given id, all other counts kept. |
| Chunking.PrefixIsSettled | src/tensite_bms_ble/protocol.py:307-335 | Before the end of the last frame found, more data changes nothing. |
| Chunking.ParseInTwo | src/tensite_bms_ble/protocol.py:307-335 | Parsing a, then its leftover followed by b, gives the frames and leftover of a followed by b. |
| Chunking.ChunkInvariance | src/tensite_bms_ble/assembler.py:83-92 | However a stream is cut into chunks, the frames and the final buffer are those of the whole stream. |
| Tallying.Recount | src/tensite_bms_ble/protocol.py:308-335 | Two calls count what one call over all bytes would, plus everything counted in the leftover of the first. |
| Tallying.CountersCount | src/tensite_bms_ble/protocol.py:94-145 | Each of the five counters is the number of positions of its own kind: frames, bad checksums, bad lengths, bad escapes and cut-short candidates, each told by the bytes; a body of fewer than 36 bytes is of none. |
| Tallying.CountersInvariantIff | src/tensite_bms_ble/protocol.py:94-112 | The counters are independent of the cut if and only if the scan of the leftover finds no cut-short candidate, bad escape, bad length or bad checksum; the count of frames always is. |
| Tallying.CutShortCountedTwice | src/tensite_bms_ble/protocol.py:315-319 | After two start bytes in a row, whatever comes next counts the first one a second time. |
| Encoding.EncodingDecodes | src/tensite_bms_ble/protocol.py:363-389 | Every encoding of header fields and a payload of up to 512 bytes is valid and decodes to those fields. |
| Encoding.ValidIsEncoding | src/tensite_bms_ble/protocol.py:366-389 | Every valid body is such an encoding. |
| Encoding.FrameAmongGarbage | src/tensite_bms_ble/protocol.py:292-335 | Between any bytes before and after, a frame is found, and exactly the frames of those bytes are found besides it. |
| Encoding.RoundTrip | src/tensite_bms_ble/protocol.py:292-389 | Any header fields and payload come back unchanged and the buffer ends empty. |
| Encoding.SplitFrameArrives | src/tensite_bms_ble/assembler.py:83-92 | A frame cut anywhere into two notifications comes back unchanged. |
| Encoding.WireLengths | src/tensite_bms_ble/protocol.py:321 | Legal frames reach past the runaway limit of 576 bytes, but never past 1100. |
| Requests.BuildRequest | src/tensite_bms_ble/protocol.py:207-237 | Builds the link-test frame or reports the exception the source raises. |
| Requests.RequestRoundTrip | src/tensite_bms_ble/protocol.py:207-237 | Succeeds exactly for 19 ASCII characters and a 16-bit position, reports which of the three fails first, and the request then parses back to them. |
| Requests.RequestBytes | src/tensite_bms_ble/protocol.py:223-237 | The request byte by byte: 50 01, the serial, 02 07, 00 00, the position, eight zero bytes, and the checksum of all that. |
| Masking.KeystreamBytes | src/tensite_bms_ble/protocol.py:175-193 | The generator loop fills the buffer with the mask. |
| Masking.RoundFitsRegister | src/tensite_bms_ble/protocol.py:187-192 | A round stays within a signed 64-bit register before truncation to 32 bits. |
| Masking.KeystreamPrefix | src/tensite_bms_ble/protocol.py:175-193 | A shorter mask is a prefix of a longer one. |
| Masking.CapturedMask | tests/test_protocol.py:696-704 | The generator reproduces all 36 mask bytes recovered from captured traffic. |
| Masking.UnmaskInvolution | src/tensite_bms_ble/protocol.py:196-204 | Masking twice is the identity at every length. |
| Masking.MaskRecovered | src/tensite_bms_ble/protocol.py:196-204 | The exclusive or of any payload and what it unmasks to is the mask. |
| Masking.UnmaskPrefix | src/tensite_bms_ble/protocol.py:196-204 | A payload cut short unmasks to the same bytes cut short. |
| Payloads.CellsRoundTrip | src/tensite_bms_ble/protocol.py:392-398 | Any sixteen 16-bit values survive packing, masking and decoding. |
| Payloads.CellsAccepted | src/tensite_bms_ble/protocol.py:392-398 | The decoder accepts exactly the packings of sixteen values. |
| Payloads.SummaryRoundTrip | src/tensite_bms_ble/protocol.py:462-550 | Every expressible summary laid out as documented decodes to itself. |
| Payloads.SummaryLossless | src/tensite_bms_ble/protocol.py:462-550 | Two payloads of 29 or 30 bytes with equal fields are equal. |
| Payloads.TemperaturesRoundTrip | src/tensite_bms_ble/protocol.py:553-561 | Any sensor values from -50 to 205 survive. |
| Payloads.RoutesRoundTrip | src/tensite_bms_ble/protocol.py:683-709 | Up to sixteen base-4 route values survive packing, masking and decoding. |
| Payloads.RouteCount | src/tensite_bms_ble/protocol.py:701-709 | Four values per payload byte present, at most sixteen, each from 0 to 3. |
| Payloads.DecodeTopology | src/tensite_bms_ble/protocol.py:635-675 | The loop reads serials up to the first entry that does not fit or carries no marker. |
| Payloads.TopologyRoundTrip | src/tensite_bms_ble/protocol.py:635-675 | Any roster of marker-bearing serials comes back whole, whatever follows it. |
| Bytes.OccursIff | src/tensite_bms_ble/assembler.py:95 | A string occurs in another exactly if the other is some text, the string, and some text. |
| Telemetry.TakenInIff | src/tensite_bms_ble/assembler.py:93-97 | A frame is taken in exactly if its id lies from 1000 to 10FF and the letters SLKOPGG stand anywhere in its serial. |
| Telemetry.CellsTold | src/tensite_bms_ble/assembler.py:103-105 | Id 1005 with 32 bytes: sixteen big-endian numbers, and the time of the frame. |
| Telemetry.SummaryTold | src/tensite_bms_ble/protocol.py:516-550 | Id 1000: every field at its offset, the current from 32768, the temperatures from 50. |
| Telemetry.TemperaturesTold | src/tensite_bms_ble/protocol.py:553-561 | Id 1021: one sensor per byte, 50 subtracted, from -50 to 205. |
| Telemetry.AlarmTold | src/tensite_bms_ble/protocol.py:591-605 | Id 1001 with eight bytes: the unmasked bytes. |
| Telemetry.RelayTold | src/tensite_bms_ble/protocol.py:683-709 | Id 1002: of each of the first four bytes four values, the lowest bits first. |
| Telemetry.SwitchesTold | src/tensite_bms_ble/protocol.py:683-709 | Id 1003: the same. |
| Telemetry.TopologyTold | src/tensite_bms_ble/assembler.py:115-118 | Id 1032: a count from 1 to 8 raises the roster to it, any other is ignored. |
| Telemetry.RosterReads | src/tensite_bms_ble/protocol.py:656-675 | The serials are the 19-byte entries after the count, up to the first that does not fit or lacks the letters. |
| Accumulation.LastFrameWins | src/tensite_bms_ble/assembler.py:92-130 | Each field held of a battery is what the last well-formed frame of its kind says. |
| Accumulation.ReadingShowsLastFrames | src/tensite_bms_ble/assembler.py:150-174 | The reading shows exactly the batteries with a summary or cells, each with the last well-formed values. |
| Accumulation.ReadingHead | src/tensite_bms_ble/assembler.py:157-174 | There is a reading exactly if a battery is shown; it is of the present moment and the given address, and names a roster exactly if one was claimed. |
| Accumulation.MasterIs | src/tensite_bms_ble/assembler.py:165-167 | A battery is named master if and only if it is the first gateway in the order of the reading, or none is a gateway and it is the configured serial. |
| Accumulation.PositionAfter | src/tensite_bms_ble/assembler.py:98-101 | Every telemetry frame of a battery, well-formed or not, sets its position. |
| Accumulation.ReadingsAreDicts | src/tensite_bms_ble/assembler.py:157-174 | Every reading lists each of its batteries once, under its own serial. |
| Accumulation.TouchesMeansDecoded | src/tensite_bms_ble/assembler.py:93-137 | A frame changes its battery exactly when a decoder exists for its id and accepts its payload. |
| Accumulation.RosterIsMaximum | src/tensite_bms_ble/assembler.py:116-118 | The roster is the largest plausible count claimed by any topology frame, between 0 and 8. |
| Accumulation.UnhandledIsCounted | src/tensite_bms_ble/assembler.py:126-128 | Per id, the number of telemetry frames nothing decodes. |
| Accumulation.OrderListsParts | src/tensite_bms_ble/assembler.py:98-100 | Insertion order lists every known serial exactly once. |
| Runs.RunIsFold | src/tensite_bms_ble/assembler.py:83-139 | A run of feeds holds the fold over the frames of the whole stream, its leftover, and reports the serials those frames touch. |
| Runs.RunsAgree | src/tensite_bms_ble/assembler.py:83-139 | Two runs over the same bytes end in the same state, times aside, and report the same changes, however they were cut. |
| Runs.RunHoldsLastFrames | src/tensite_bms_ble/assembler.py:83-139 | After any run, each battery's part is what the last well-formed frames of the stream say. |
| Runs.CompleteMeansBoth | src/tensite_bms_ble/assembler.py:48-56 | A battery is complete exactly when its history holds a well-formed summary and a well-formed cell frame. |
| Runs.CompleteGrows | src/tensite_bms_ble/assembler.py:146-148 | More frames never make a battery incomplete or lower the count. |
| Assembler.ReadingAssembler.Feed | src/tensite_bms_ble/assembler.py:83-139 | One call takes the object from its state to the fold's next state and returns the serials that changed. |
| Assembler.ReadingAssembler.Take | src/tensite_bms_ble/assembler.py:93-137 | One turn of the loop: the step of the fold, including what malformed and unhandled frames leave behind. |
| Assembler.ReadingAssembler.CompleteCount | src/tensite_bms_ble/assembler.py:146-148 | Counts the complete batteries. |
| Assembler.ReadingAssembler.Reading | src/tensite_bms_ble/assembler.py:150-174 | The reading of what is held, batteries in the order of the dict, None if no battery has said anything usable. |
| Assembler.ReadPayload | src/tensite_bms_ble/assembler.py:102-136 | The dispatch on message ids. |
| Readings.MergeReadings | src/tensite_bms_ble/models.py:473-524 | The loop over the latest batteries, in the order of their dict, computes the merge and the order of the merged dict. |
| Readings.MergeAssociative | src/tensite_bms_ble/models.py:473-524 | Merging polls in any grouping gives one result, the order of its dict included; no previous poll is a left identity. |
| Readings.MergeIdempotentIff | src/tensite_bms_ble/models.py:490-516 | Merging a reading onto itself is the identity if and only if each battery sits under its own serial. |
| Readings.MergeKeepsKeyed | src/tensite_bms_ble/models.py:490-516 | Merging keeps batteries under their own serials. |
| Readings.MergeLosesNothing | src/tensite_bms_ble/models.py:476-524 | No battery and no present field is lost, newer values win, cells keep their own time, and batteries of both polls and the reading itself carry the time of the later poll. |
| Agreement.FoldIsOverlay | src/tensite_bms_ble/assembler.py:98-130 | Accumulating more frames lays the parts they amount to over the old ones. |
| Agreement.MergeAgreesIff | src/tensite_bms_ble/models.py:490-516 | For any two histories, merging their readings gives a battery the telemetry of accumulating both if and only if a guard on the two polls holds. |
| Agreement.MergeAgreesWithAccumulation | src/tensite_bms_ble/models.py:476-485 | It does for batteries that each poll misses or shows, at non-zero positions and without empty lists. |
| Agreement.MoveToZeroIsLost | src/tensite_bms_ble/models.py:498 | A battery that reports position 0 keeps its old position in the merge but not in the assembler. |
| Agreement.RosterAgreesIff | src/tensite_bms_ble/models.py:520 | The readings of two polls, merged, and the reading of one assembler fed both give the same roster if and only if the later poll claims none or no fewer; or, where only one poll has a reading, if the other one claims no more. |
| Agreement.LoneClaimIsLost | src/tensite_bms_ble/assembler.py:150-163 | A first poll of one topology frame has no reading, so the merge with a later summary has no roster while the assembler keeps the claim. |
| Agreement.MasterAgreesIff | src/tensite_bms_ble/models.py:519 | Merge and assembler name the same master if and only if the battery the merge settles on leads the bank as heard by both polls, or no gateway is heard and the configured serial stands. |
| Agreement.SecondGatewayDisagrees | src/tensite_bms_ble/models.py:519 | Two polls that each hear one of two gateways: the merge names the second, the assembler the first. |
| Agreement.OrderAgreesIff | src/tensite_bms_ble/models.py:490-495 | Merged dict and assembler list the batteries in one order if and only if those that only the later poll shows, but the earlier one knew, were heard after all that the earlier one shows and stand among the other new ones as they were heard. |
| Agreement.ShownLateDisagrees | src/tensite_bms_ble/models.py:490-495 | A battery heard undecoded before another is shown, and shown by the later poll: last in the merge, first in the assembler. |
| Agreement.MergeIsAccumulationIff | src/tensite_bms_ble/models.py:473-524 | Merged polls and one assembler fed both say the same, times aside, if and only if the guards on batteries, dict order, roster and master all hold. |
| Throttle.UpdatesAreThrottled | src/tensite_bms_ble/stream.py:315-343 | In every legal run, reconnects included, updates of one session are a throttle interval apart, and a window of length w sees at most w / throttle + 1. |
| Throttle.NoLostUpdate | src/tensite_bms_ble/stream.py:307-349 | In every reachable state a change not yet handed on is pending and armed within one throttle interval of it; if there is none, the last update has the present batteries, fields and roster, and agrees in positions and master too if and only if no frame heard since moved a battery it shows. |
| Throttle.EveryChangeIsCovered | src/tensite_bms_ble/stream.py:307-343 | While its connection lasts, every change that left a reading has been followed by an update or is armed to go out at most one throttle interval after it. |
| Throttle.ChangeDeliveredIff | src/tensite_bms_ble/stream.py:307-343 | While its connection lasts, a change has been handed on if and only if no timer was armed when it came or the timer has fired since. |
| Throttle.TeardownLosesWaiting | src/tensite_bms_ble/stream.py:294-297 | After a teardown there is no assembler and nothing is handed on until the next open. |
| Throttle.OnlyLaterIsHandedOn | src/tensite_bms_ble/stream.py:229-237 | Whatever is handed on after a connection has ended, reopens included, is the reading of notifications that all came in after it. |
| Throttle.ConnectionIsRun | src/tensite_bms_ble/stream.py:229-313 | After any events, the assembler is the one a run over the notifications of the present connection leaves. |
| Throttle.EveryUpdateIsItsConnection | src/tensite_bms_ble/stream.py:307-343 | Every update there has ever been was the reading of exactly the frames in the bytes its connection had taken in by then. |
| Lapses.DropLosesChange | src/tensite_bms_ble/stream.py:330-343 | A run in which a second change waits, the connection drops, and the timer fires with nothing to hand on. |
| Throttle.TickDelivers | src/tensite_bms_ble/stream.py:330-343 | The timer a pending update waits for hands over the present reading. |
| Throttle.QuietTickDisarms | src/tensite_bms_ble/stream.py:330-334 | A timer that fires with nothing pending hands nothing on and is gone. |
| Throttle.PendingTickSettles | src/tensite_bms_ble/stream.py:330-343 | A timer that fires with an update pending hands on the present reading if there is one, leaves nothing pending, and is armed anew for one interval. |
| Throttle.ChangeGoesOutAtOnce | src/tensite_bms_ble/stream.py:315-328 | While no timer is armed, a change is handed on at once, once, and arms the timer for one interval. |
| Throttle.ChangeAfterQuietTick | src/tensite_bms_ble/stream.py:315-334 | So the first change after a quiet timer is handed on the moment it comes. |
| Throttle.EveryChangeArms | src/tensite_bms_ble/stream.py:307-328 | Every reported change, with or without a reading, leaves a timer armed, and an update pending if one was armed already. |
| Throttle.NoChangeNoUpdate | src/tensite_bms_ble/stream.py:311-312 | A notification without a change hands nothing on and leaves timer and pending flag alone. |
| Throttle.ReopenKeepsTimer | src/tensite_bms_ble/stream.py:229-297 | A drop and a reopening leave timer and pending flag as they were, with a fresh assembler. |
| Throttle.NothingTakenWhileStopping | src/tensite_bms_ble/stream.py:183-310 | From the request to stop until the next start no notification is taken in. |
| Throttle.RestartDeliversAtOnce | src/tensite_bms_ble/stream.py:155-196 | A stopped stream can be started again, and the first change of the new connection goes out at once. |
| Throttle.SilentAfterStop | src/tensite_bms_ble/stream.py:183-196 | After a stop, nothing calls `on_update` and no connection is opened before the next start. |
| Throttle.UnchangedFeed | src/tensite_bms_ble/stream.py:311-312 | A feed that reports no change alters nothing a consumer is told except positions and the master that follows from them. |
| Throttle.UnchangedFeedIff | src/tensite_bms_ble/stream.py:311-312 | It alters nothing at all, times aside, if and only if none of its frames leaves a shown battery at another position. |
| Lapses.MovedGatewayIsNotReported | src/tensite_bms_ble/assembler.py:101-128 | A run in which an undecoded frame takes a battery off the gateway's position: no update follows, and the last one still names it master. |
| Stream.TensiteClusterStream.OnNotify | src/tensite_bms_ble/stream.py:307-313 | The object's step on a notification is the state machine's. |
| Stream.TensiteClusterStream.ScheduleFlush | src/tensite_bms_ble/stream.py:315-328 | Marks pending while a timer is armed, else flushes and arms it. |
| Stream.TensiteClusterStream.OnThrottleEnd | src/tensite_bms_ble/stream.py:330-334 | The object's step when the timer fires. |
| Stream.TensiteClusterStream.Flush | src/tensite_bms_ble/stream.py:336-343 | Hands the reading so far to the consumer if there is one. |
| Stream.TensiteClusterStream.CancelFlush | src/tensite_bms_ble/stream.py:345-349 | No timer and nothing pending remain. |
| Stream.TensiteClusterStream.AsyncStart | src/tensite_bms_ble/stream.py:161-167 | A start while running changes nothing. |
| Stream.TensiteClusterStream.AsyncOpen | src/tensite_bms_ble/stream.py:229-237 | A fresh assembler per connection; timer and pending flag survive. |
| Stream.TensiteClusterStream.AsyncTeardown | src/tensite_bms_ble/stream.py:294-297 | The assembler is dropped; timer and pending flag survive. |
| Stream.TensiteClusterStream.RequestStop | src/tensite_bms_ble/stream.py:183-186 | From here on notifications are ignored. |
| Stream.TensiteClusterStream.FinishStop | src/tensite_bms_ble/stream.py:187-196 | Assembler, timer and pending flag are gone. |
| Backoff.Run | src/tensite_bms_ble/stream.py:200-227 | The retry loop ends at the first connection that a stop ends, sleeps once per failed open, and counts as reconnects exactly the connections that dropped. |
| Backoff.BackoffFormulaIff | src/tensite_bms_ble/stream.py:216-217 | After f failures in a row the sleep is min(initial * 2^f, max) for every f if and only if initial <= max. |
| Backoff.SleepAfterRun | src/tensite_bms_ble/stream.py:202-220 | The n-th failure in a row since the start or the last successful open sleeps min(initial * 2^(n-1), max). |
| Backoff.BackoffGrows | src/tensite_bms_ble/stream.py:216-217 | While opens keep failing the sleeps never get shorter and never exceed the maximum. |
| Alarms.TableIsSound | src/tensite_bms_ble/alarms.py:117-170 | The 29 rows have distinct keys and distinct aligned places inside the field. |
| Alarms.DecodedAtPlace | src/tensite_bms_ble/alarms.py:117-193 | Each alarm is decoded from the two bits at its documented place; past the end of a short field there is no fault. |
| Alarms.LevelsByKey | src/tensite_bms_ble/alarms.py:180-193 | Every slot's severity is found under its key. |
| Alarms.DecodeInvertsPacking | src/tensite_bms_ble/alarms.py:180-193 | Any assignment of severities packed into the field is decoded back. |
| Alarms.ActiveExactly | src/tensite_bms_ble/alarms.py:196-203 | Exactly the rows with a severity above 0 are active, each with it. |
| Alarms.ActiveInOrder | src/tensite_bms_ble/alarms.py:196-203 | They stand in the order of the table, each once. |
| Alarms.UnmappedBits | src/tensite_bms_ble/alarms.py:206-222 | The two loops, with the in-place cover and the growing union, compute the bits no alarm reads. |
| Alarms.UncoveredBits | src/tensite_bms_ble/alarms.py:206-222 | No alarm reads bits 4 and 5 of byte 0, bits 4 to 7 of byte 5, and anything past byte 7; every other bit is read. |
| Alarms.OrSetsBits | src/tensite_bms_ble/alarms.py:221 | A bit of the union is set exactly if it is set in one of the two numbers. |
| Alarms.AlarmBitsConserved | src/tensite_bms_ble/alarms.py:180-222 | For a field of any length, decoded severities shifted back to their slots plus unmapped bits sum to the field as a number. |
| Alarms.FaultMeansAlarmOrUnmapped | src/tensite_bms_ble/models.py:183-242 | A fault is reported if and only if some alarm is active or some unmapped bit is set. |

## Left out

- Scanning, connecting, keepalives, the command line and all of `client.py` and `cli.py`: library plumbing.
- asyncio: the stream is modelled as atomic events with integer times. Task cancellation, overlapping start
  and stop calls, connection-state callbacks and exceptions raised by `on_update` are not modelled.
- Clients left connected by an open that fails after connecting (an `Open` event that nothing follows): the
  source does not disconnect that client, so nothing is claimed about how many clients are open.
- Clock values: one opaque stamp per notification stands for every time taken while it is processed.
- Assembler.ReadingAssembler.Reading: does not carry `ParseStats`; the source hands out its live counters object.
- Readings.MergeReadings: does not carry `ParseStats`; the source passes on the object of the latest reading.
- `ParseStats.add`, `rejected` and `reject_ratio`: sums and a quotient of the counters.
- Floating point: voltages, currents and energies stay raw tenths; `power`, means and rounding are left out.
- Derived properties of readings (extremes, deltas, sentinels, status, active relays): one-branch facts.
- `decode_model`, `format_position`, `decode_is_master`, alarm labels, categories and names: display only.
- Characters outside the Basic Multilingual Plane in a serial passed to `build_request`.
- Consumers that call back into the stream from `on_update`: the callback is a log entry in the model.
