# Gateway verification

A Dafny model of the algorithmic cores of a 4G gateway's firmware and of the Python tools that
build its flash images, with proofs about every message, every run or every input.

- **Frame check** (`Crc16`, `CrcTables`, `CrcOrder`, `CrcDetection`, `CrcWindows`). The
  bit-serial reflected CRC with polynomial 0xA001 of sections 2.5.1.2 and 6.2.2 of the MODBUS over Serial Line
  Specification and Implementation Guide V1.02 is the reference. The two-table loop of `call.c`
  and the one-table loop of `tools/pacgen.py` refine it. The error-detection theorems rest on
  the algebra of the register: each step is linear and injective, absorbing sixteen bits is
  injective in them, x + 1 divides the polynomial, and x has order exactly 32767. They are about
  whole frames as the receiver compares them: which bursts, and how many flipped bits, can take
  one passing frame to another.
- **RS-485 protocol** (`Rs485`, `Rs485Wire`, `Reports`). The poll thread that counts sub-devices, the control
  thread that polls them round-robin and ages their miss counters, the receive callback that
  clears counters, and the two reports that show them. The threads are methods of a class whose
  state is proved equal, after every step, to the state its recorded history leads to; the
  theorems are about all histories.
- **Image builders** (`Layout`, `Pac`, `Cpio`, `Nv`, `NvRecords`, `NvDelta`, `PacJson`). PAC containers, cpio
  archives, NV images with their patcher and delta files, and saved configurations: read-back,
  round trips and read-over-write.
- **Zone commands** (`Zones`, `ZoneReplies`). The binary commands of `handle_Net_Cmd` as a state machine over
  the gateway's settings and its reply buffer.
- **Loops** (`Lcd`, `Firmware`, `Hex`). The text line of the display against a raster
  specification, chunked firmware reception and the block-wise update, and the hex codecs.

Every `method` is proved against a specification function of the old state; the lemmas then say
what that function means, down to the bytes on the bus, in the files and in the display. Sends are appended to a trace; chunks, read lengths, return codes,
answers and arriving frames are inputs. C `char` is unsigned.

Where the code does not do what one would expect of it, the code is modelled and the exact
condition is proved:

- the check bytes travel high byte first, so a burst of nine bits across their border can pass;
  which windows of a frame let something through is decided exactly (`WindowSlipsIff`,
  `EightBitsDetected`, `NineBitsSlip`, `NineBitPair`);
- two flipped payload bits cancel exactly at distances divisible by 32767
  (`TwoFlipsUnnoticedIff`, `TwoFlipsCancel`), and passing frames are four or more bits apart
  exactly up to 4095 bytes (`FarApartIff`, `MinimumDistance`);
- the count of sub-devices is a byte (`CountIsExactBelow256`, `CountCanWrap`);
- a frame clears its sender's counter whether or not its check bytes match
  (`Gateway.HandleRec`, `FailingFrameRevives`), and one that fails overwrites the serial number
  of the next device (`SerialsKeptUnlessCorrupted`, `CorruptedFrameOverwrites`);
- the two NV walkers step over records differently (`WalksAgreeIff`, `WalksCanDisagree`);
- cpio fields can be too narrow, and a name can end the archive (`RoundTripIff`,
  `TrailerNameHides`);
- a zone-4 write takes its first word from its own opcode bytes, so the high temperature limit
  is 0x1000 after any of them (`HighLimitIsTheOpcode`);
- above -0.1 degrees the status report shows the temperature in tenths exactly when it is
  positive (`TemperatureRightIff`): at zero it shows 0x5536 (`ZeroDegrees`); and a voltage that
  is not positive leaves the temperature's word, so it too is shown exactly when it is positive
  or that word happens to be 0 (`VoltageRightIff`);
- application-image reception can overrun its buffer (`ImageReceptionFitsIff`,
  `ImageReceptionCanOverrun`);
- the hex validation loop looks at one character only (`VerdictIsRightIff`, `AcceptsNonHex`);
- the comment above `nvbin_apply_delta` says that a patch's size field holds the data size plus
  4; the code reads it as the data size, and so does the model.

Verify with `dafny verify dfyconfig.toml`.

## Model

| member | source | states |
|---|---|---|
| Crc16.ShiftIsModbusStep | call.c:1106-1119 | the reference register step is the guide's: shift right, XOR 0xA001 when a one falls out |
| Crc16.CrcOfByte | call.c:1106-1119 | XORing the bits of a byte in one by one equals XORing the byte in and shifting eight times |
| Crc16.CrcConcat | tools/pacgen.py:95-100 | the register after a concatenation is the register after its parts, one after the other |
| CrcTables.TablesHoldEightShifts | call.c:1063-1104 | all 256 entries of the two tables of call.c are the halves of the pacgen.py entry, which is eight register steps of its index |
| CrcTables.NCrc16 | call.c:1106-1119 | the two-table loop computes the bit-serial CRC, preset to ones, of the first `len` bytes |
| CrcTables.CalcCrc16 | tools/pacgen.py:95-100 | the one-table loop continues the bit-serial CRC from any register; seeded with ones it is the same value as `N_CRC16` |
| CrcOrder.FullPeriod | call.c:1106-1119 | a lone bit is back in place after 32767 steps |
| CrcOrder.NoShorterPeriod | call.c:1106-1119 | and after no smaller number of steps |
| CrcOrder.PeriodIff | call.c:1106-1119 | the register's periods are exactly the multiples of 32767 |
| CrcDetection.WindowInjective | call.c:1106-1119 | from any register, absorbing up to sixteen bits is injective in them |
| CrcDetection.BurstChangesCrc | call.c:1106-1119 | for any length and position, payloads that differ only inside sixteen consecutive bits have different check values; `CrcWindows` has the windows of a whole frame |
| CrcDetection.AdjacentBytesChangeCrc | call.c:1106-1119 | altering one or both of any two adjacent payload bytes changes the check value |
| CrcDetection.AdjacentBytesDetected | call.c:957-963 | and makes the comparison fail when the check bytes are kept |
| CrcDetection.MatchingFrameIsEven | call.c:957-963 | a frame that passes the comparison has an even number of one bits |
| CrcDetection.OddFlipsDetected | call.c:957-963 | no odd number of flipped bits, payload or check bytes, takes a passing frame to a passing frame |
| CrcDetection.TwoFlipsUnnoticedIff | call.c:1106-1119 | two flipped payload bits leave the check value unchanged if and only if their distance is a multiple of 32767, for any length |
| CrcDetection.TwoFlipsChangeCrc | call.c:1106-1119 | so any two flipped bits of a payload of up to 4095 bytes change it |
| CrcWindows.TwoFlipsCancel | call.c:1106-1119 | two flipped payload bits 32767 apart, in any such message, that leave the check value unchanged |
| CrcDetection.OneFlipIsNotOneCheckBit | call.c:1106-1119 | one flipped bit of a payload of up to 4093 bytes never changes just one bit of the check bytes |
| CrcDetection.MatchingFramesFarApart | call.c:957-963 | two different frames of one length, up to 4095 bytes, that both pass the comparison differ in at least four bits |
| CrcDetection.TwoBitsSlip | call.c:957-963 | from 4096 bytes on, every passing frame has another passing frame two flipped bits away |
| CrcDetection.FarApartIff | call.c:957-963 | so passing frames of n bytes are always four or more bits apart if and only if n is at most 4095 |
| CrcWindows.FourBitsSlip | call.c:957-963 | every passing frame with a payload has another passing frame exactly four flipped bits away |
| CrcWindows.MinimumDistance | call.c:957-963 | the least distance of two passing frames of n bytes is exactly 4 for n from 3 to 4095 and exactly 2 from 4096 on |
| CrcDetection.ByteChanges | call.c:1106-1119 | a byte XORed anywhere in a message changes the check value by that byte, shifted once for each bit from it to the end |
| CrcWindows.WindowSlipsIff | call.c:957-963 | for every passing frame and every window of consecutive bits of it, another frame that differs only there passes if and only if the window has a payload bits and t check bits with a = 1 and t >= 9, or a >= 2, t >= 3 and a + t >= 9, or a >= 1 and a + t >= 17 |
| CrcWindows.BytesChange | call.c:1106-1119 | an error pattern anywhere in any message changes the check value by the register of the pattern alone, shifted to the end |
| CrcWindows.OneSidedWindowsDetected | call.c:957-963 | sixteen bits inside the payload, or inside the check bytes, let no change through |
| CrcWindows.EightBitsDetected | call.c:957-963 | eight consecutive bits anywhere let no change through, at any length |
| CrcWindows.NineBitsSlip | call.c:957-963 | nine do, in every passing frame that has a payload |
| CrcWindows.NineBitPair | call.c:957-963 | two passing frames that differ only in nine consecutive bits |
| CrcDetection.ClosedFramesMatch | call.c:998-1010 | any payload closed high byte first passes the receiver's comparison |
| Rs485.CheckCrc | call.c:957-963 | recompute-and-compare succeeds exactly on frames whose last two bytes are the check bytes of the rest |
| Rs485.PollIdClosedForm | call.c:1273-1276 | after any history the next polled address is 1 plus the idle iterations modulo the device count |
| Rs485.CounterClosedForm | call.c:1278-1284 | after any history a discovered device's miss counter is the sweeps completed since its last frame, saturated at 3; other slots hold 0 |
| Rs485.OfflineIff | call.c:1278-1284 | a device is shown offline if and only if three sweeps have completed since it was last heard |
| Rs485.DetectionLatency | call.c:1273-1284 | 3n silent idle iterations always show a device offline, 2n or fewer never do |
| Rs485.SilenceDecides | call.c:1273-1284 | after any history a device is shown offline if and only if the idle iterations since it was heard, plus its turn in that sweep, make 3n |
| Rs485.LatencyBoundsAreTight | call.c:1273-1284 | runs in which 3n - 1 silent iterations do not show and 2n + 1 do, for every n and device |
| Rs485.UndiscoveredStayOnline | call.c:871-882 | no history takes a slot beyond the discovered ones away from 0 |
| Rs485.PolledClosedForm | call.c:1272-1293 | the k-th idle iteration polls address 1 + k mod n, whatever happens in between |
| Rs485Wire.SentByEvent | call.c:1238-1293 | what each event puts on the bus after any history, byte by byte: an idle iteration one closed poll (address 1 + idle iterations mod n, 0x4D, 0), a broadcast one closed command (address, 0x44, high byte, low byte) to each of 1..n in order, the key event one to address 1, an arriving frame nothing |
| Rs485Wire.PollsInTurn | call.c:1240-1293 | the k-th frame on the bus that looks like a poll is addressed to 1 + k mod n, over every run |
| Rs485Wire.EveryAddressOncePerSweep | call.c:1240-1293 | any n consecutive polls on the bus reach every address exactly once, by their first byte |
| Rs485Wire.DiscoveryOnWire | call.c:1121-1170 | discovery sends 0, 0x4E closed, then for each poll 0, 0 and the address closed, on both ports, addresses counting up from 1 in a byte |
| Rs485Wire.FrameClears | call.c:949-995 | after any history a frame sets a counter to 0 exactly when the control thread runs and it comes on handle 0, has at most 200 bytes and names that device |
| Rs485.WireClosedForm | call.c:1238-1293 | everything sent over a run, as a function of its history alone |
| Rs485.BroadcastsInOrder | call.c:1254-1270 | a broadcast sends one control frame to each of 1..n, in order |
| Rs485.SentFramesMatch | call.c:1238-1293 | every frame sent over any run passes the receiver's comparison |
| Rs485.CountIsExactBelow256 | call.c:1180-1188 | the device count discovery ends with is max(1, answers) if and only if fewer than 256 sub-devices answered |
| Rs485.CountCanWrap | call.c:1180-1188 | of 256 answers a count of 1 is left |
| Rs485.Gateway.SndCtrlCmd | call.c:998-1010 | puts exactly one closed control frame on the device bus |
| Rs485.Gateway.SndRestart | call.c:1121-1138 | one closed restart frame, on the first call only |
| Rs485.Gateway.Discover | call.c:1140-1192 | ends with Dev_Num the byte-sized count of the answers, at least 1, after one restart frame and one closed poll on both ports per answer and one more; the state is then the start of a run |
| Rs485.Gateway.ControlIteration | call.c:1238-1293 | one iteration is one step of the transition system, so every state of the object is reachable by its history |
| Rs485.Gateway.AgeAll | call.c:1278-1284 | the sweep loop ages each discovered device once, saturating, and no other slot |
| Rs485.Gateway.HandleRec | call.c:949-995 | compares frames of up to 200 bytes only and reports the verdict; once the control thread runs, such a frame on handle 0 clears its sender's counter whatever the verdict; serial numbers change as specified |
| Rs485.SerialOfSlot | call.c:963-984 | slot by slot, which frame enters which serial number before and after the control thread runs |
| Rs485.SerialsKeptUnlessCorrupted | call.c:963-984 | over any frames of the control phase slot j keeps its serial number, unless j is below 4 and a frame from address j failed the comparison: then it holds that frame's bytes, the last one's |
| Rs485.CorruptedFrameOverwrites | call.c:975-981 | for each of the first four slots and any twelve bytes, a frame that fails the comparison and puts them there |
| Rs485.FailingFrameRevives | call.c:871-882 | for every n and device, a run in which it is shown offline and a frame that fails the comparison shows it online again |
| Reports.GenerateSubDevOnLine | parse.c:269-284 | bit i of the four bytes is set exactly when slot i's counter is not 3 |
| Reports.SlotBit | parse.c:275-282 | bit i is bit i mod 8, from the lowest, of byte i / 8 |
| Reports.GenerateOnLine | main_xb.c:441-451 | character i between two commas is 0 exactly when slot i's counter is 3 |
| Reports.ReportBoth | parse.c:269-284 | in every reachable state both reports agree on every discovered device, show it online iff fewer than three sweeps have completed since it was heard, and the bitmap shows every other slot online |
| Pac.ReadFileHeader | tools/pacgen.py:377-394 | every field of a file header reads back at its byte offset, reserved parts are 0 |
| Pac.ReadHeader | tools/pacgen.py:745-763 | every field of the PAC header reads back at its byte offset, the magic number 0xFFFAFFFA at 2116, reserved parts are 0 |
| Layout.LittleEndian32 | tools/pacgen.py:28-29 | a field of four bytes counts its first byte least |
| Layout.FixedBytes | tools/pacgen.py:28-30 | a text field holds the text from its start, then zeros |
| Pac.PacHeaderIsTrue | tools/pacgen.py:740-797 | the image's own header gives its true length, file count and settings; bytes 2120 and 2121, low byte first, are the bit-serial register started at 0 over the first 2120 bytes, bytes 2122 and 2123 that over everything after byte 2124 |
| Pac.ReadBack | tools/pacgen.py:714-797 | header i sits at 2124 + 2580 i and reading through it yields exactly file i's data |
| Pac.ExtentsTile | tools/pacgen.py:728-741 | the extents tile the tail of the image without gap or overlap, to its last byte |
| Pac.CrcOfPieces | tools/pacgen.py:765-770 | folding the CRC piece by piece equals one pass over the concatenation |
| Pac.PacConfig.PackFiles | tools/pacgen.py:723-738 | yields exactly the headers, data and final offset, or stops if and only if a number does not fit its field |
| Pac.FieldsFitIff | tools/pacgen.py:377-394 | a file header can be packed if and only if its numbers lie between 0 and 2^32 - 1 |
| Pac.SettingsFitIff | tools/pacgen.py:745-763 | the same of the PAC header |
| Pac.PacConfig.PacGen | tools/pacgen.py:714-797 | writes exactly the image if and only if every number fits, and appends the XML entry to the configuration's own list |
| Cpio.RoundTripIff | tools/pacgen.py:165-228 | an archive reader recovers exactly the ordered names and data and stops at the trailer, if and only if every name and size fits its field and no name is the trailer's |
| Cpio.ReadMisfit | tools/pacgen.py:182-202 | an entry that does not fit is never read back, whatever follows it |
| Cpio.TrailerNameHides | tools/pacgen.py:204-228 | an entry with the trailer's name hides itself and every entry behind it |
| Cpio.EntryLayout | tools/pacgen.py:165-202 | an entry byte by byte: 0xC7 0x71, the twelve words at their places, name and data at even places, zeros between |
| Cpio.TrailerLayout | tools/pacgen.py:204-217 | the trailer: one link, no data, the name TRAILER!!! |
| Cpio.GenData | tools/pacgen.py:219-228 | the loop emits exactly the archive of the entries in order |
| Cpio.SameFields | tools/modemgen.py:290-305 | where the second tool packs an entry at all, it packs the same twelve fields |
| Cpio.CreatePrepackCpio | tools/modemgen.py:275-322 | the same bytes as `gen_data` for a non-empty list, nothing for an empty one, an exception if and only if a time or size needs more than 32 bits |
| Cpio.PackableIff | tools/modemgen.py:290-305 | an entry can be packed if and only if its time and size lie between 0 and 2^32 - 1 |
| Nv.WalksAgreeIff | tools/modemgen.py:158-191 | the two walkers inspect the same positions if and only if every record size, up to one that ends the image, is a multiple of 4 |
| Nv.WalksFindTheSame | tools/modemgen.py:158-191 | then they find every id at the same place |
| Nv.WalksCanDisagree | tools/modemgen.py:158-191 | an image on which one walker finds a record and the other does not |
| NvRecords.ExtractLaid | tools/modemgen.py:158-174 | on an image of any records padded to four bytes, of any size, extraction yields the data of the first record with the id, or finds nothing |
| NvRecords.ModifyLaid | tools/modemgen.py:178-191 | on an image of unpadded records a patch changes just its bytes of just the first record with the id; without one nothing changes and the tool raises |
| NvRecords.PatchableLaid | tools/modemgen.py:158-191 | on an image of records whose sizes are multiples of 4 the walks agree, and a patch is in bounds if and only if it lies in the first record with its id |
| Nv.AssignedBytes | tools/modemgen.py:187 | a slice assignment place by place, bounds behind the end included |
| Nv.SliceBytes | tools/modemgen.py:168 | a slice place by place, bounds behind the end included |
| Nv.PatchKeepsLayout | tools/modemgen.py:178-191 | an in-bounds patch succeeds, replaces just its bytes and moves no record |
| Nv.ExtractPatched | tools/modemgen.py:158-191 | extracting the patched id gives the old record with just the patched bytes replaced |
| Nv.ExtractOther | tools/modemgen.py:158-191 | every other id extracts as before, found or not |
| Nv.StaysInBounds | tools/modemgen.py:178-191 | a patch that was in bounds is in bounds after any other |
| NvDelta.LastWriterWins | tools/modemgen.py:178-219 | any list of in-bounds patches succeeds, keeps length and layout, and leaves in every byte of every record the value last written to it |
| NvDelta.LastWrittenIsLastCover | tools/modemgen.py:178-219 | that value is the one carried by the last patch covering the byte, or the original |
| NvDelta.InnerLoopRuns | tools/modemgen.py:211-218 | on serialised patches the inner loop applies exactly them and ends exactly behind them |
| NvDelta.PatchLayout | tools/modemgen.py:212-213 | where the fields of a patch stand |
| NvDelta.BulkLayout | tools/modemgen.py:194-210 | where the fields of a bulk stand, 0xFF 0xFF at its end |
| NvDelta.DeltaAppliesItsPatches | tools/modemgen.py:204-219 | on a serialised list of bulks the nested loops apply exactly its patches in order, each bulk ending where the next begins |
| NvDelta.DeltaLastWriterWins | tools/modemgen.py:204-219 | a whole delta file leaves in every byte of every record the value its last covering patch carries |
| NvDelta.NvImage.ExtractItem | tools/modemgen.py:158-174 | the loop computes the extraction specified, not found and malformed images included |
| NvDelta.NvImage.ModifyItem | tools/modemgen.py:178-191 | the loop computes the patch specified on any image, Python slice clipping included; raises and leaves the image alone if the id is not found |
| NvDelta.NvImage.ApplyDelta | tools/modemgen.py:204-219 | the nested loops compute the specified application on any delta bytes, and terminate |
| PacJson.HexRoundTrip | tools/pacgen.py:407-538 | base-16 parsing, with its blanks, signs, prefixes and underscores, inverts hex printing on every integer |
| PacJson.HexForm | tools/pacgen.py:490-514 | `hex` prints lower-case digits without leading zeros |
| PacJson.HexTextForm | tools/pacgen.py:490-514 | behind 0x or -0x |
| PacJson.DigitsOfEitherCase | tools/pacgen.py:428 | digits of either case are read |
| PacJson.ParsedTexts | tools/pacgen.py:428 | texts with blanks, signs, prefixes and underscores, and texts that are refused |
| PacJson.SpacesAre | tools/pacgen.py:428 | which characters count as blanks |
| PacJson.NvRoundTrip | tools/pacgen.py:426-433 | a stored NV item loads as itself |
| PacJson.FileRoundTrip | tools/pacgen.py:435-466 | a stored plain, empty or pack file loads as itself |
| PacJson.LoadAfterStore | tools/pacgen.py:407-538 | loading a stored configuration restores it all except XML entries, whatever its values, appended to what was there |
| PacJson.StoredNv | tools/pacgen.py:485-495 | what a saved NV item holds under each key |
| PacJson.StoredPlain | tools/pacgen.py:502-514 | what a saved plain file holds under each key |
| PacJson.StoredEmpty | tools/pacgen.py:515-525 | what a saved empty file holds under each key |
| PacJson.StoredPack | tools/pacgen.py:526-533 | what a saved pack file holds under each key, its type "CODE" |
| PacJson.StoredConfig | tools/pacgen.py:472-483 | what a saved configuration holds under each key |
| PacJson.ListsMayBeMissing | tools/pacgen.py:426-435 | a document without the two lists loads as one with empty ones |
| PacJson.ListForms | tools/pacgen.py:426-435 | which values can be gone through as a list, and what that visits |
| PacJson.NvLoadsIff | tools/pacgen.py:426-433 | an item loads if and only if its six keys are there and its ID is hex text |
| PacJson.FileLoadsIff | tools/pacgen.py:435-466 | a file loads if and only if what its kind needs is there; an unknown kind leaves it unset |
| PacJson.ProductLoadsIff | tools/pacgen.py:414-424 | the product's settings load if and only if no key is missing |
| PacJson.PacConfig.StoreToJson | tools/pacgen.py:468-534 | the loops build exactly the document specified, or raise if and only if an entry was never set |
| PacJson.PacConfig.LoadFromJson | tools/pacgen.py:407-466 | loads any document as specified: fails if and only if a key is missing, hex text or a pack file's path is no such text, or a list cannot be gone through; every other value is taken as it stands |
| Zones.WriteDecidesZone4 | parse.c:448-516 | whatever the settings were, the zone-4 image after a write is the write's own first 16 + 6n bytes |
| Zones.Zone0IsLatestWrite | parse.c:353-377 | after any commands zone 0 holds bytes 4 and 5 of the latest 0x05 command |
| Zones.Zone4IsLatestWrite | parse.c:448-516 | after any commands the zone-4 image is that of the latest 0x10 command |
| Zones.HighLimitIsTheOpcode | parse.c:491-493 | after any commands among them a zone-4 write, the first zone-4 word is 0x1000 |
| Zones.ReadZone0 | parse.c:353-377 | a zone-0 read after any commands returns the latest write, closed by its CRC |
| Zones.ReadZone4 | parse.c:448-516 | a zone-4 read returns the first 16 + 6n bytes of the latest write, closed by their CRC; six zeros stand for the entries when n is 0 |
| Zones.RepliesMatch | parse.c:353-516 | in any settings the replies to 0x01, 0x02, 0x03, 0x04 and 0x10 pass the receiver's comparison |
| Zones.ReplyLengths | parse.c:405-516 | their lengths: 21 + 6w + 6b for zone 3, 18 + 6 max(1, w) for zone 4, 6, 6 and 5 |
| ZoneReplies.RelaySignals | parse.c:387-402 | bytes 2 and 3 of a relay command: 00 55 signals all on, 11 55 all off, 22 55 clear, 33 55 restart |
| ZoneReplies.MemoryNeeded | parse.c:352-517 | exactly how much memory each opcode reads |
| ZoneReplies.ReadZone1 | parse.c:378-386 | a zone-1 read after any commands returns the value they began with, low byte first, closed |
| ZoneReplies.OtherReplies | parse.c:366-522 | a 0x05 command is answered by its first 8 bytes, a 0x44 by its first 6, a 0x10 by 0, 0x10, 1 closed, an unknown one by "byebye" |
| ZoneReplies.StatusLayout | parse.c:405-440 | where zones, device count, bitmaps, white-list count and area stand in the status report |
| ZoneReplies.StatusBitmaps | parse.c:427-429 | bit i mod 8 of bytes 10 + i / 8 and 14 + i / 8 of the report is set exactly when slot i's counter is not 3 |
| ZoneReplies.WhiteAreaBytes | parse.c:431-439 | the area of the white list holds its last entry, then zeros |
| ZoneReplies.ScannedBytes | parse.c:305-318 | every scanned device contributes the same six bytes |
| ZoneReplies.ReadingsInTenths | parse.c:413-425 | a positive reading x is shown as the whole number n with n <= 10 x < n + 1; a voltage that is not positive shows the temperature's number |
| Zones.StatusReadings | parse.c:405-426 | bytes 4 to 7 of the status report are the words the code computes for temperature and voltage |
| Zones.TemperatureRightIff | parse.c:413-420 | above -0.1 degrees bytes 4 and 5 are the temperature in tenths if and only if it is positive |
| Zones.VoltageRightIff | parse.c:421-425 | bytes 6 and 7 are the voltage in tenths if and only if it is positive, or the temperature is and lies below a tenth |
| Zones.ZeroDegrees | parse.c:413-425 | at and just below zero degrees the report shows 0x5536, for the voltage too when there is none |
| Zones.ZoneServer.ReadZone3Fields | parse.c:405-446 | the reply buffer holds the closed status report; its bitmaps show exactly the counters |
| Zones.ZoneServer.ReadZone4Fields | parse.c:448-489 | the reply buffer holds the closed zone-4 image |
| Zones.ZoneServer.WriteZone4Fields | parse.c:491-516 | stores all eight words and the white list and acknowledges, closed by its CRC |
| Zones.ZoneServer.HandleNetCmd | parse.c:351-523 | every binary command takes the settings and the reply buffer where the state machine says, and only 0x44 signals the control thread; a first byte other than 0 only clears the reply buffer |
| Lcd.ColumnsTile | nwy_drv_lcd_st7735.c:244-262 | the glyph columns of a well-formed string tile exactly `line_len` |
| Lcd.BitTestsAgree | nwy_drv_lcd_st7735.c:149-169 | the masking and the shifting test read the same font bit |
| Lcd.ExpandGlyph | nwy_drv_lcd_st7735.c:149-169 | the nested loops put the colour of every font bit at its row and column, cut off at the glyph's width |
| Lcd.GetGlyphBuf | nwy_drv_lcd_st7735.c:220-241 | for both fonts the scratch buffer holds the glyph's pixels |
| Lcd.GlyphPixelIs | nwy_drv_lcd_st7735.c:107-169 | which font byte and bit decide a pixel of a character, for both sizes |
| Lcd.WellFormedOnce | nwy_drv_lcd_st7735.c:265-306 | a string is well-formed exactly when no lead byte stands alone at its end |
| Lcd.StartsFollow | nwy_drv_lcd_st7735.c:265-306 | each character begins where the one before ends |
| Lcd.Blit | nwy_drv_lcd_st7735.c:270-276 | copies a glyph to its columns and changes nothing else |
| Lcd.DispStrLine | nwy_drv_lcd_st7735.c:244-324 | every pixel of every character (of the first only, when the line hangs below the panel) is the text colour exactly when its bit is set in the font byte read for it: bit 7 - c mod 8 of byte r at b * 12 or 16, or of byte 2 r + c / 8 at (94 (b0 - 0xA1) + (b1 - 0xA1)) * 24 or 32; it stands at row r, column p * 6 or 8 + c for the character at byte p; nothing behind the line changes, the window has the line's width and height, and a line is refused exactly when it is too long |
| Firmware.ReceptionIsChunkIndependent | hello_world.c:1136-1156 | for any split of the stream exactly its first `size` bytes are stored and the end is signalled once |
| Firmware.Receiver.AppInfoProc | hello_world.c:1136-1156 | takes the step specified; the position never passes the size, so the overrun branch is never taken |
| Firmware.Receiver.DataCb | hello_world.c:419-493 | each chunk takes the step of the reception under way, firmware or application image; after completion further chunks leave it alone |
| Firmware.Receiver.AppImgInfoProc | hello_world.c:6104-6118 | stores the whole chunk and signals once the size is reached or passed |
| Firmware.ImageReceptionFitsIff | hello_world.c:6104-6118 | the application-image variant stays inside its buffer if and only if a chunk ends at byte `size` or the stream is shorter |
| Firmware.ImageReceptionStores | hello_world.c:6104-6118 | it stores exactly the chunks up to the one that reaches the size |
| Firmware.ImageReceptionCanOverrun | hello_world.c:6104-6118 | a stream on which it does not |
| Firmware.TilesContents | hello_world.c:6208-6247 | blocks that tile a prefix of the file concatenate to it |
| Firmware.OtaLoop | hello_world.c:6208-6247 | under any reads the blocks are contiguous and hold what was read, at most 2048 bytes each; every write but the last succeeded; it ends in a write error if and only if the last write failed, in a read error if and only if bytes remain and the next read is not positive, and complete if and only if no write failed and the blocks concatenate to the file |
| Hex.EncodedDenotes | mqtt.c:133-157 | either encoder's output is a hex string denoting its input |
| Hex.EncodedChars | hello_world.c:657-689 | the two characters of every byte, high half first, a to f from one encoder and A to F from the other |
| Hex.HexDigits | mqtt.c:169-194 | which characters are digits, and what they are worth |
| Hex.RoundTrips | mqtt.c:133-199 | both encoders composed with either decoder are the identity on every byte string |
| Hex.DecodersAgree | hello_world.c:4259-4282 | the two decoders agree on every even-length hex string of any case |
| Hex.ConvertHexAsc | mqtt.c:133-157 | the loop writes the lower-case encoding |
| Hex.NwyHexToString | hello_world.c:657-689 | the loop writes the upper-case encoding and a NUL |
| Hex.ConverAscHex | mqtt.c:160-199 | accepts exactly even-length strings whose first character is a digit and leaves the result alone otherwise; writes the bytes denoted when all are digits |
| Hex.VerdictIsRightIff | mqtt.c:160-181 | that verdict is right if and only if the string is not an even-length one that starts with a digit and goes wrong later |
| Hex.AcceptsNonHex | mqtt.c:160-199 | such a string, and what is decoded from it |
| Hex.StickyIsLatest | mqtt.c:182-196 | a character that is no digit takes the value of the latest digit before it |
| Hex.StickyBytes | mqtt.c:182-196 | two characters make a byte, the first its high half |
| Hex.DecodesNonHex | hello_world.c:4259-4282 | what the other decoder makes of a string that is none |
| Hex.NibbleOfAny | hello_world.c:4266-4278 | what the other decoder takes any character for |
| Hex.PlainBytes | hello_world.c:4280 | and how it makes bytes of two of them |
| Hex.NwyHexStrToByte | hello_world.c:4259-4282 | the loop writes the decoding specified, on any characters and odd lengths too |

## Left out

- Rs485: each thread iteration and callback is one atomic step; interleavings inside one are not modelled.
- Rs485: addresses above 32 in an arriving frame, and more than 32 discovered devices, would index past the device table; the control-phase theorems assume neither.
- Rs485.CheckCrc: frames shorter than two bytes are excluded, because the length minus two is formed before the length is tested.
- Rs485.Gateway.HandleRec: the MQTT text of `handle_n_Iso` and the text settings of the second port are not modelled, nor serial numbers entered while discovery runs.
- Rs485.Gateway.Discover: assumes that some poll times out, since otherwise the thread never ends.
- Rs485.Gateway.ControlIteration: the values of event ids and relay codes come from prj.h, which is not part of this model; they are parameters.
- CrcTables: the three tables are lookup functions, not arrays in memory.
- Zones.ZoneServer.HandleNetCmd: the three text commands, which are told apart first, and stored settings files are not modelled; the memory behind a short message is part of the command, and array capacities are preconditions because prj.h is not part of this model.
- Zones.ZoneServer.ReadZone3Fields: readings are real numbers (no rounding) whose tenfold fits sixteen bits; what C makes of temperatures of -0.1 and below is a parameter; the address area holds what the code leaves there, not one entry per device.
- Zones.RepliesMatch: relay codes other than the four known ones leave the event unset; the model marks it unspecified.
- Pac.PacConfig.PacGen: strings are their UTF-16 bytes; the XML text and file contents are inputs.
- Cpio.GenData: path normalisation, directory walking and sorting are not modelled; the ordered entries are the input.
- NvDelta.NvImage.ApplyDelta: models the bytearray path; `mnvgen8811` passes immutable bytes.
- PacJson.PacConfig.LoadFromJson: documents are values, not JSON text, with the keys the tools use; hex text is ASCII.
- Lcd.DispStrLine: font files open; strings do not end in half a two-byte character; coordinates do not wrap in 32 bits.
- Firmware.Receiver.DataCb: console input (flag 0) is not modelled, and an application-image chunk has to fit the buffer, since the source would write behind it.
- Hex.NwyHexStrToByte: lengths past the reach of its 16-bit index.
- `hack_mem_list` (which rewrites compression flags in a memory index), the white-list files and key-value settings of the gateway, the MQTT connection, the test menus and the SDK headers are not part of this model.
