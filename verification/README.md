# Verified models of the firmware's core algorithms

This project models the parts of the energy-logger firmware, of the Arduino-ESP32 core it is built on and of its
build tools where a wrong step loses data, and proves what they promise. Each file models one component; the
components are independent of each other except where a file imports another; Arithmetic, Splicing and
ByteTypes hold what several of them use.

| component | files |
|---|---|
| store-and-forward record log on circular NOR flash | RecordLog, LogSafety (the run model and its safety), LogLaws (what each step does), FlashDevice, FlashMeter, Logger (the code, refining it) |
| ESP32 firmware image packer and loader | ImageFormat, PackerSpec, PackingLoop (the loop on values), ImagePacker, BitwiseXor, ByteOrder |
| SPI clock divider search | SpiClock |
| libb64 base64 coders | Base64Spec, Base64 |
| Modbus CRC-16 and transaction | Crc16, ModbusSpec, Modbus |
| SLIP framing | Slip |
| in-place string replacement | ReplaceSpec, WString |
| ring buffer | CBuf |
| calendar | Calendar |
| partition table | Partition, PartitionBinary |
| trimmed-mean ADC filter | TrimmedMean |
| Thai text messages | ThaiSms |

Code that changes state step by step is a class or a method with loops here too, proved against a function or
predicate on values; the laws are lemmas about those.

**What turned out not to hold, and exactly when it does.**

- A power cut between the two NVRAM stores of a sector skip (main/main.cpp:256-257), or of an index reset with rIndex
  above 0, leaves rIndex above wIndex. So does one in the first setup() after the marker is written
  (main/main.cpp:1304-1307), if the rIndex found is above the wIndex found, or above 0 with wIndex stored. No other
  step does (StepKeepsInv, FirstBootExactly). Records logged below rIndex afterwards are never posted until the
  server resets the indices (TornLosesRecords).
- A batch that reaches the sector one lap ahead of rIndex destroys waiting records; a batch that does not, keeps them
  (FitsIsExact). The code does not check this.
- get_alignment_data_needed returns 0 for a misaligned position when exactly 8 bytes are missing and the address is
  less than 16 past a 64 KiB boundary (ZeroNeededExactly); save then fails its assertion (MisplacedExample).
- The packing loop ends for flash addresses that are multiples of 4. It never ends exactly if the RAM segments are used
  up before a flash address that is not one (OneOfThree, StuckExactly), which can be computed from addresses and
  lengths (FateExactly): with zeros alone such an address is never reached (ZeroPaddingEndsExactly), with a RAM segment
  of the needed length it is (FullCut, OddAddressExactly).
- A saved image of more than 16 pieces is refused by the loader of the same tool (SavedFileLoads, RamOnlyImage).
- The SPI clock search leaves out N = 0, and misses a closer setting exactly if the least divider for the frequency is
  at most 8192, has no factor from 2 to 64 and gives another frequency than the next (UndividedCloserExactly).
- base64::encode allocates too little for 1, 2, 4 and 7 bytes, and enough for every other length.
- A Modbus exception with code 0 is reported as success, and a frame of 256 bytes or more is accepted without looking
  at its CRC because the byte counter has eight bits (AcceptedExactly, CodeZeroAccepted, WrongCrcAccepted). Damage to
  the byte count of a reply to a read can pass the CRC (CountDamagePasses).
- The growing branch of String::replace is right for every text exactly when no proper end of the pattern begins the
  pattern or its replacement (GrownExactly); one-character patterns are always right. For other patterns the result
  can overrun the buffer (RunOverruns).
- cbuf::resize leaves an unusable buffer exactly when newSize + 1 equals the number of bytes held.
- DateTime follows the Gregorian calendar exactly up to the end of February 2100; the time itself survives for every
  32-bit value.
- Partition names come back exactly if they have at most sixteen bytes and no zero byte.
- getAvgAdc gives 0 or 1 for fewer than six readings, and divides by zero for six.
- An SMS comes back as sent exactly if it holds a Thai character or nothing; its terminator fits the receiver's buffer
  exactly if some character is not Thai.

**Assumptions.**

- The SPIFlash library is not part of this model: erasing sets 4096 bytes to 0xFF, programming is a bitwise AND, a
  write with the check flag returns true exactly if the range reads back as written, and a faulty operation leaves
  arbitrary bytes in its range. The record log is about capacities that are multiples of 4096 and leave at least two
  sectors behind the reserve.
- The NVRAM of a new device may hold anything but the marker 0x55.
- HTTP, the serial line and the ADC are parameters: which posts get a 200, which bytes arrive when, which readings
  come. A uart_read_bytes call that delivers nothing has blocked past the response timeout.
- CPU_CLK_FREQ is a number C with 524288 <= C < 2^31.
- Strings are free of inner zero bytes and no argument of String::replace aliases the string itself.

## Model

| member | source | states |
|---|---|---|
| LogSafety.EveryRecordDelivered | main/main.cpp:231-261 | over every run of boot, log, post and reset steps from a new device with any flash and NVRAM contents, whose batches fit and whose index stores are not torn: each waiting index reads back the record logged there, and each logged index behind the reader was accepted with HTTP 200 with that very record |
| LogSafety.RunKeepsInv | main/main.cpp:525-557 | every state of a run without torn index stores has rIndex <= wIndex, indices equal to their NVRAM copies, all waiting indices logged, and every passed logged index served, even when batches outgrow the flash |
| LogSafety.StepKeepsInv | main/main.cpp:243-260 | one step, the first setup() included, keeps the whole invariant if and only if the power does not fail between the two index stores of a sector skip, of a reset with rIndex above 0, or of the initialisation of unmarked NVRAM once its marker is written and an index copy in it other than 0 is not yet overwritten; rIndex <= wIndex is kept in these cases too only if the marker alone was written and the copies found were in order |
| LogSafety.FirstBootExactly | main/main.cpp:1300-1313 | a new device with any NVRAM contents, powered up any number of times with the power failing anywhere in setup(): with the marker alone written, rIndex <= wIndex exactly if the copies found had it so; with wIndex stored too, exactly if the rIndex found was 0; both are 0 exactly if nothing was torn, and no later setup() repairs it |
| LogSafety.TornLosesRecords | main/main.cpp:346-374 | after torn index stores every record logged at an index from wIndex up to rIndex stays unposted in every run up to the next reset; these are the indices up to the next sector after a skip, all below the old rIndex after a reset, and all below the rIndex found after a first boot |
| LogSafety.PostsAhead | main/main.cpp:525-557 | in every run without a reset, torn or not, nothing behind rIndex is posted any more and rIndex never goes back |
| LogSafety.ReaderPassesOnlyServed | main/main.cpp:346-374 | rIndex never goes back outside a reset, a refused post or unreadable flash leaves it in place, and every logged index it passes, in a sector skip too, was accepted |
| LogSafety.FitsIsExact | components/arduino/libraries/SPIFlashMeter/SPIFlashMeter.cpp:34-54 | a healthy batch leaves the oldest waiting record readable if and only if no sector it reaches lies one lap ahead of rIndex, or what it puts in that slot (its own record, or blanks) happens to be the same bytes |
| LogSafety.HealthyLogSucceeds | components/arduino/libraries/SPIFlashMeter/SPIFlashMeter.cpp:34-54 | from erased slots a healthy batch programs only erased bytes, is confirmed, advances wIndex by the batch and leaves the rest of its last sector erased |
| LogSafety.SoundRunStaysClean | components/arduino/libraries/SPIFlashMeter/SPIFlashMeter.cpp:34-54 | in every run without flash faults all writes are confirmed, through wrap-around, skips, reboots and resets |
| LogSafety.SkipRecovers | main/main.cpp:249-257 | with no backlog and any error count, failed writes in a row leave both indices alone until the eight-bit count is three or more, after at most four of them; that failure moves both to the next sector, where the next healthy write is confirmed whatever the failures left behind |
| LogSafety.OpenedSectorLosesRecord | components/arduino/libraries/SPIFlashMeter/SPIFlashMeter.cpp:34-43 | a healthy batch that opens a sector leaves in each of its slots the batch's own record, or blanks |
| LogSafety.PhysIsRemainder | components/arduino/libraries/SPIFlashMeter/SPIFlashMeter.cpp:31 | the slot counted by laps is the remainder of the logical index by the number of slots |
| LogSafety.DistinctSlots | components/arduino/libraries/SPIFlashMeter/SPIFlashMeter.cpp:31 | logical indices less than one lap apart never share a slot |
| LogSafety.UntouchedSlot | components/arduino/libraries/SPIFlashMeter/SPIFlashMeter.cpp:34-54 | a batch, confirmed or failed, changes no slot of the lap that ends with the last sector it reaches |
| RecordLog.DecodeEncode | main/main.cpp:196-226 | the twelve words the poster reads out of a record are those meterToFlash put in |
| RecordLog.NextSector | main/main.cpp:254 | the first multiple of 64 after the write index |
| FlashDevice.SpiFlash.EraseSector | components/arduino/libraries/SPIFlashMeter/SPIFlashMeter.cpp:40 | the sector holding the address becomes 0xFF, or arbitrary if the erase fails, and nothing else changes |
| FlashDevice.SpiFlash.WriteByteArray | components/arduino/libraries/SPIFlashMeter/SPIFlashMeter.cpp:49-54 | programming clears bits of its range only; the result says whether the range reads back as the data |
| FlashMeter.SPIFlashMeter.Begin | components/arduino/libraries/SPIFlashMeter/SPIFlashMeter.cpp:8-26 | for any record size, as many records as fit behind the 8192-byte reserve and no more; with size 64 on a chip of whole sectors, at least two behind the reserve, they fill the chip |
| FlashMeter.SPIFlashMeter.EraseOpenedSectors | components/arduino/libraries/SPIFlashMeter/SPIFlashMeter.cpp:34-43 | exactly the sectors whose first record is in the batch are erased; the reserve is never touched |
| FlashMeter.SPIFlashMeter.WriteMeterData | components/arduino/libraries/SPIFlashMeter/SPIFlashMeter.cpp:29-56 | byte level refines slots: the call does to the slots what BatchWrite allows, in one piece or around the end of the flash, and returns true exactly when every record of the batch reads back |
| FlashMeter.SPIFlashMeter.ReadMeterData | components/arduino/libraries/SPIFlashMeter/SPIFlashMeter.cpp:59-72 | a successful read fills the buffer with the records at the logical indices asked for, around the end of the flash too |
| FlashMeter.ReadBackSlots | components/arduino/libraries/SPIFlashMeter/SPIFlashMeter.cpp:54 | a byte range reads back as written exactly when every slot in it holds its record |
| FlashMeter.BatchFromSlots | components/arduino/libraries/SPIFlashMeter/SPIFlashMeter.cpp:29-56 | erasing and then programming slots is one BatchWrite, with the result flag of the bytes |
| Logger.MeterLogger.Setup | main/main.cpp:1300-1313 | setup() is AfterBoot in every power-cut position: marked NVRAM gives both indices back; unmarked NVRAM gets its marker first, then both indices, and a second setup() trusts what the first has not got to; the error count restarts at zero |
| Logger.MeterLogger.FillBuffer | main/main.cpp:195-227 | the write buffer holds the encoded records of all meters one after the other |
| Logger.MeterLogger.MeterToFlash | main/main.cpp:190-265 | meterToFlash is a LogStep of the run model: flash effect, index advance or error count, sector skip, in every power-cut position |
| Logger.MeterLogger.FlashMeterToPost | main/main.cpp:267-377 | records are accepted one by one up to the first refusal; the read index and its copy move by num exactly if the flash was readable and all replies were 200, and stay otherwise |
| Logger.MeterLogger.FlashMeterToBatchPost | main/main.cpp:379-495 | one reply accepts all records or none; the read index and its copy move by num exactly if the flash was readable and it was 200 |
| Logger.MeterLogger.PostTask | main/main.cpp:525-557 | posting is an AfterPost step: nothing without backlog, at most six single posts or one batch of the configured size |
| LogLaws.PostMoves | main/main.cpp:267-557 | without a power cut a post moves the read index and its copy by the smaller of backlog and limit if the flash was readable and the server took all those records, one by one or as a batch, and by nothing otherwise; nothing else changes but the records accepted |
| LogLaws.PostAccepts | main/main.cpp:267-495 | wherever the power fails, accepted are exactly the records that the server took: single posts up to the first refusal, a batch as a whole, each as read from its slot |
| LogLaws.PostCut | main/main.cpp:372-374 | a power cut after the replies leaves both indices where they were |
| LogLaws.BacklogDrains | main/main.cpp:525-557 | successful posts alone empty the backlog after exactly the backlog divided by the limit, rounded up |
| LogLaws.ConfirmedExactly | main/main.cpp:231 | a write is confirmed exactly if every record reads back from its slot, the remainder of its index by the number of slots |
| LogLaws.ConfirmedMoves | main/main.cpp:231-243 | a confirmed write without a power cut moves the write index and its copy by the batch, which is logged there, and clears the error count |
| LogLaws.UnconfirmedMoves | main/main.cpp:245-261 | an unconfirmed one counts in eight bits, and from three on with nothing waiting moves all indices to the next multiple of 64; nothing else changes |
| LogLaws.ResetMoves | main/main.cpp:1128-1138 | an uncut reset leaves all indices, copies and the error count 0 |
| LogLaws.BootMoves | main/main.cpp:1300-1313 | a boot on marked NVRAM takes the copies, clears the error count and changes nothing else |
| LogLaws.RecordLayout | main/main.cpp:196-226 | a record is the twelve words, each low byte first, and sixteen zeros |
| FlashMeter.RecordPlace | components/arduino/libraries/SPIFlashMeter/SPIFlashMeter.cpp:31 | the record of logical index k stands in 64 bytes at 8192 + 64 * (k mod M) |
| FlashMeter.ReadBytes | components/arduino/libraries/SPIFlashMeter/SPIFlashMeter.cpp:59-72 | a successful read gives the bytes of the asked records one by one |
| Logger.MeterLogger.ServerReset | main/main.cpp:1128-1138 | the index reset is an AfterReset step in every power-cut position |
| ImagePacker.Save | components/arduino/tools/esptool.py:1335-1427 | for whole-word segments at any 32-bit address: a saved file is the header, the pieces, zeros, the checksum in the last byte of a multiple of 16, and the digest, and the pieces satisfy Packed; mappings clash, the alignment assertion fails, the loop never ends or the pieces are too many if and only if the stated conditions on the input hold, the outcome of the loop being computed by FateOf from addresses and lengths; flash addresses at multiples of 4 always end, in pieces of whole words, and flash addresses at least 16 past their 64 KiB boundary never fail the assertion |
| ImagePacker.MisplacedExample | components/arduino/tools/esptool.py:1371-1398 | 65488 bytes at 0x3F400020 and a segment at 0x400D0000 are refused by the assertion |
| ImagePacker.OddAddressExample | components/arduino/tools/esptool.py:1384-1401 | a flash segment at 0x400D0013 with one RAM segment: the loop never ends exactly if RAM has fewer than 65515 bytes |
| ImagePacker.RamOnlyImage | components/arduino/tools/esptool.py:1103-1409 | an image of up to 255 RAM segments alone is saved in as many pieces, and the loader refuses the file exactly if there are more than 16 |
| ImagePacker.PackFlash | components/arduino/tools/esptool.py:1384-1401 | the in-place loop writes the pieces of the step function Iterate, and completes, fails the assertion or never ends exactly if Iterate completes, misplaces or gets stuck |
| PackingLoop.OneOfThree | components/arduino/tools/esptool.py:1384-1401 | the loop completes, fails the assertion or goes on for ever, always exactly one of them; for ever exactly if it gets stuck: RAM used up and the next flash address out of step with the position modulo 4 |
| PackingLoop.StuckForever | components/arduino/tools/esptool.py:1384-1393 | once stuck, no number of turns writes another flash segment |
| PackingLoop.StuckExactly | components/arduino/tools/esptool.py:1384-1393 | in every run from whole-word segments (IterateKeeps) the loop is stuck exactly when RAM is used up before a flash address that is not a multiple of 4 |
| PackingLoop.ZeroPaddingEndsExactly | components/arduino/tools/esptool.py:1382-1393 | with zeros alone, over any number of paddings, the padding ends if and only if position and address agree modulo 4 |
| PackingLoop.WithoutRamExactly | components/arduino/tools/esptool.py:1384-1401 | with no RAM segment, an image whose flash addresses are off the page starts is completed if and only if they are all multiples of 4 |
| PackingLoop.FateExactly | components/arduino/tools/esptool.py:1384-1401 | for every list of flash and RAM segments the loop completes, fails the assertion or never ends exactly as FateOf computes from the position, the flash addresses and lengths, and the RAM lengths, flash segment by flash segment with the RAM left |
| PackingLoop.PlacedExactly | components/arduino/tools/esptool.py:1384-1393 | the padding of one flash segment, for any RAM segments, leads to the place and the RAM left that Placed computes, or is stuck if there is none |
| PackingLoop.OddAddressExactly | components/arduino/tools/esptool.py:1384-1401 | one flash segment at an address that is not a multiple of 4 is written if and only if one of the RAM segments, coming to stand one after the other, has the bytes needed where it stands |
| PackingLoop.FullCut | components/arduino/tools/esptool.py:1388-1400 | a RAM segment with the needed bytes is cut once and the flash segment follows, at any address |
| PackingLoop.WordAddrsEnd | components/arduino/tools/esptool.py:1384-1401 | flash addresses that are multiples of 4 never get the loop stuck |
| PackerSpec.FlashAlignedAt | components/arduino/tools/esptool.py:1398 | in packed pieces the data of each flash segment stands at a file offset congruent to its address mod 65536 |
| PackerSpec.PaddingAt | components/arduino/tools/esptool.py:1393 | padding pieces are zeros for address 0 |
| PackingLoop.ZeroNeededExactly | components/arduino/tools/esptool.py:1365-1380 | the needed padding is zero exactly for aligned positions and, wrongly, when exactly one header is missing and the address is less than 16 past its boundary |
| PackingLoop.PaddingAligns | components/arduino/tools/esptool.py:1365-1380 | a piece of exactly the returned length aligns the segment, whatever its address |
| PackingLoop.NeededRange | components/arduino/tools/esptool.py:1371-1380 | the returned length stays within a page, or takes one page more if the address is 16 or more further into its page than the position |
| PackingLoop.PaddingIsWords | components/arduino/tools/esptool.py:1365-1380 | the padding is whole words if and only if position and address agree modulo 4 |
| PackingLoop.Overshoot | components/arduino/tools/esptool.py:1393 | zeros that had to be rounded up miss the place, and the next padding needed is most of a page |
| PackerSpec.EndPosIsLength | components/arduino/tools/esptool.py:1398 | the position used for the alignment of a piece is the length of the file written before it |
| PackerSpec.PackingKeepsImage | components/arduino/tools/esptool.py:1384-1406 | every value stands at every address exactly as often in the pieces without padding as in the original segments |
| PackerSpec.PackingKeepsChecksum | components/arduino/tools/esptool.py:1344-1409 | the checksum of the pieces is that of the original segments: 0xEF XOR every original byte |
| PackerSpec.SortStable | components/arduino/tools/esptool.py:1347-1348 | sorting keeps the order of segments at the same address |
| PackerSpec.FlashWindows | components/arduino/tools/esptool.py:1324-1326 | the first and last addresses of the two flash windows |
| ImagePacker.SavedFileLoads | components/arduino/tools/esptool.py:1306-1314 | a saved file, with any digest after it, is refused by the loader if it has more than 16 pieces; otherwise it loads to the header and the pieces padded to whole words, with the checksum of the original segments, and to the very pieces if and only if all are whole words |
| ImagePacker.ImageSegment.SplitImage | components/arduino/tools/esptool.py:1041-1051 | the first bytes go to the new segment at the old address, the rest stays at the address moved up |
| ImagePacker.CutFirst | components/arduino/tools/esptool.py:1388-1391 | a piece is cut off the first RAM segment, which is dropped when used up and otherwise keeps the rest at the moved address |
| ImagePacker.CutKeepsRam | components/arduino/tools/esptool.py:1389-1391 | cutting keeps every RAM byte at its address and in sequence |
| ImagePacker.CheckMappings | components/arduino/tools/esptool.py:1356-1363 | a clash is reported exactly if two neighbouring flash segments start in one 64 KiB mapping |
| ImagePacker.SharesAny | components/arduino/tools/esptool.py:1356-1363 | among sorted segments, some two share a mapping exactly if two neighbours do |
| ImageFormat.LoadFile | components/arduino/tools/esptool.py:1026-1130 | loading a written file gives the header and checksum byte it was written with and its segments padded to whole words, whatever follows, or the refusal of more than 16 segments |
| ImageFormat.FileForm | components/arduino/tools/esptool.py:1127-1130 | every written file is whole 16-byte blocks: header, segments, at most fifteen zeros, and the checksum as its last byte |
| ImageFormat.FileExample | components/arduino/tools/esptool.py:1103-1135 | one RAM segment of four bytes: the 48 bytes of the file, with the checksum at offset 47 |
| ImageFormat.LoadedExactly | components/arduino/tools/esptool.py:1079-1116 | the loader accepts exactly the files that hold as many segments as they announce, up to sixteen, and the whole 16-byte block behind them |
| ImageFormat.HeldLoads | components/arduino/tools/esptool.py:1109-1115 | such a file loads to its header, its segments padded to words, and the byte at the one place k in the block with k mod 16 = 15 |
| ImageFormat.RefusedExactly | components/arduino/tools/esptool.py:1079-1116 | which error is raised, for every file |
| ImageFormat.PaddedExactly | components/arduino/tools/esptool.py:1026-1034 | padding leaves the segments as they are if and only if all are whole words |
| ImageFormat.Load | components/arduino/tools/esptool.py:1306-1314 | the loader loop gives LoadSpec; if it succeeds, segments stand in the file behind the headers and the checksum is read from the end of their 16-byte block |
| ImageFormat.HeaderRoundTrip | components/arduino/tools/esptool.py:1429-1465 | common and extended header, with two drive strengths a byte, read back as written |
| ImageFormat.CalculateChecksum | components/arduino/tools/esptool.py:1117-1125 | the checksum of a loaded image is the running XOR over all its segments |
| ByteOrder.FromToLE32 | components/arduino/tools/esptool.py:1105 | a 32-bit number written low byte first reads back |
| ByteOrder.ToFromLE32 | components/arduino/tools/esptool.py:1105 | four bytes read as a number are written back as they were |
| ByteOrder.ValueOfFour | components/arduino/tools/esptool.py:1105 | the first of four bytes counts least |
| SpiClock.FrequencyToClockDiv | components/arduino/cores/esp32/esp32-hal-spi.c:1028-1080 | at or above the clock: 0x80000000; below the lowest frequency: 0x7FFFF000; between: bits 12-17 hold the least N and bits 18-30 a prescaler of a setting at most the wanted frequency that no N in 1..63 and prescaler in 0..8191 comes closer to from below, bits 0-5 are (N + 1) / 2, bits 6-11 and 31 are clear |
| SpiClock.OneMegahertz | components/arduino/cores/esp32/esp32-hal-spi.c:1040-1080 | from 80 MHz the word for 1 MHz is 0x009C1001 |
| SpiClock.TryVariations | components/arduino/cores/esp32/esp32-hal-spi.c:1056-1074 | four variations leave the best of the old setting and of variations 0 and 1, or an exact hit, in a register with regL half of N + 1, regH 0 and the clock divided |
| SpiClock.TwoCandidatesSuffice | components/arduino/cores/esp32/esp32-hal-spi.c:1057 | for one N, whatever prescaler stays at or below the wanted frequency, variation 0 or 1 does as well or better |
| SpiClock.DivDiv | components/arduino/cores/esp32/esp32-hal-spi.c:1020 | dividing by the product is dividing twice, so the search may divide by N + 1 first |
| SpiClock.MinFreqIsLeast | components/arduino/cores/esp32/esp32-hal-spi.c:1035-1036 | 0x7FFFF000 gives the lowest frequency of all settings |
| SpiClock.UndividedCloserExactly | components/arduino/cores/esp32/esp32-hal-spi.c:1040-1080 | a setting with N = 0, which the search leaves out, comes closer than its result if and only if the least divider for the frequency is at most 8192, has no factor from 2 to 64, and the divider after it gives another frequency |
| SpiClock.PrimeDividerMissed | components/arduino/cores/esp32/esp32-hal-spi.c:1040-1080 | from 80 MHz the search misses 1194029 Hz, which needs the divider 67 |
| SpiClock.DecodeRegValue | components/arduino/cores/esp32/esp32-hal-spi.c:1009-1018 | fields packed into the register word are read back, and the word fits 32 bits |
| Base64Spec.EncoderMeetsRfc | components/arduino/cores/esp32/libb64/cencode.c:28-103 | from any whole group in a line, the encoder and its block end write exactly the RFC 4648 text, with a newline after every 72 characters |
| Base64Spec.DecodeText | components/arduino/cores/esp32/libb64/cdecode.c:24-79 | decoding the encoded text gives the input back, for every byte string |
| Base64Spec.EncodeSplit | components/arduino/cores/esp32/libb64/cencode.c:36-56 | encoding in two calls with the saved state is encoding in one |
| Base64Spec.DecodeSplit | components/arduino/cores/esp32/libb64/cdecode.c:29-69 | decoding in two calls with the saved state is decoding in one |
| Base64Spec.DecodeEncoded | components/arduino/cores/esp32/libb64/cencode.c:28-81 | input split anywhere gives the same text, and that text split anywhere decodes to the input |
| Base64Spec.EncodeDecoded | components/arduino/cores/esp32/libb64/cdecode.c:24-79 | every text of whole groups of alphabet characters is the encoding of what it decodes to |
| Base64Spec.SkippedAnywhere | components/arduino/cores/esp32/libb64/cdecode.c:34-41 | characters outside the alphabet change nothing wherever they stand |
| Base64Spec.DecodedLength | components/arduino/cores/esp32/libb64/cdecode.c:24-79 | k alphabet characters make 3k/4 bytes, so the output fits base64_decode_expected_len |
| Base64Spec.Alphabet | components/arduino/cores/esp32/libb64/cdecode.c:11-17 | the two tables are inverse to each other; padding and newline are skipped |
| Base64Spec.StandardAlphabet | components/arduino/cores/esp32/libb64/cencode.c:19-26 | the encoding table is that of RFC 4648 |
| Base64Spec.TestVectors | components/arduino/cores/esp32/libb64/cencode.c:36-103 | f, fo and foo make Zg==, Zm8= and Zm9v |
| Base64Spec.MoreTestVectors | components/arduino/cores/esp32/libb64/cencode.c:36-103 | foob, fooba and foobar make Zm9vYg==, Zm9vYmE= and Zm9vYmFy |
| Base64Spec.LinesOf72 | components/arduino/cores/esp32/libb64/cencode.c:72-77 | every 54 bytes make 72 characters and a newline |
| Base64Spec.TextLength | components/arduino/cores/esp32/base64.cpp:41 | the text has 4*ceil(n/3) + floor(n/54) characters |
| Base64Spec.AllocationFitsExactly | components/arduino/cores/esp32/base64.cpp:41 | text and terminator fit the allocation exactly for n other than 1, 2, 4 and 7 |
| Base64.EncodeBlock | components/arduino/cores/esp32/libb64/cencode.c:28-81 | the block writes the machine's text at the pointer, touches no other cell, and saves the state to resume from |
| Base64.EncodeBlockEnd | components/arduino/cores/esp32/libb64/cencode.c:83-103 | the padding of the last group and a terminating zero are written, nothing else |
| Base64.DecodeBlock | components/arduino/cores/esp32/libb64/cdecode.c:24-79 | the block writes the decoded bytes and one scratch cell, and saves the state to resume from |
| Base64.DecodeChars | components/arduino/cores/esp32/libb64/cdecode.c:81-87 | one call decodes the whole text and ends it with a zero if anything was decoded |
| Base64.Encode | components/arduino/cores/esp32/base64.cpp:38-54 | for the lengths that fit, the result is the RFC 4648 text in lines, or -FAIL- without memory |
| Crc16.BurstDetected | components/arduino/libraries/ModbusMeter/util/crc16.h:71-85 | two messages of one length whose difference is a burst within sixteen bits, anywhere, have different CRCs |
| Crc16.AdjacentBytesDetected | components/arduino/libraries/ModbusMeter/util/crc16.h:71-85 | two messages of one length that differ only within two adjacent bytes have different CRCs |
| Crc16.OddErrorsDetected | components/arduino/libraries/ModbusMeter/util/crc16.h:71-85 | two messages of one length that differ in an odd number of bits have different CRCs |
| Crc16.CrcOfNumber | components/arduino/libraries/ModbusMeter/util/crc16.h:71-85 | the running CRC is the exclusive or of register and message, taken as one number, stepped once for every bit |
| Crc16.StepsLinear | components/arduino/libraries/ModbusMeter/util/crc16.h:76-82 | the bit steps are linear over exclusive or |
| Crc16.StepsNonzero | components/arduino/libraries/ModbusMeter/util/crc16.h:76-82 | the bit steps never turn a nonzero register into zero, so they lose nothing |
| Crc16.AppendedCrc | components/arduino/libraries/ModbusMeter/ModbusMeter.cpp:69-75 | a message and two bytes have CRC zero exactly if the bytes are its CRC, low byte first |
| Crc16.Crc16Update | components/arduino/libraries/ModbusMeter/util/crc16.h:71-85 | the eight-step loop is the bit step taken eight times after folding in the byte |
| Crc16.CrcExample | components/arduino/libraries/ModbusMeter/util/crc16.h:71-85 | the CRC of 01 03 00 0E 00 06 is 0x0BA4 |
| ModbusSpec.AcceptedExactly | components/arduino/libraries/ModbusMeter/ModbusMeter.cpp:112-193 | success is reported exactly for a frame of the slave, the requested function and 5 + count bytes, all on time and with CRC zero if it is shorter than 256 bytes, and for an exception with code zero |
| ModbusSpec.ErrorsExactly | components/arduino/libraries/ModbusMeter/ModbusMeter.cpp:112-193 | the status of every transaction: 0xE2 without four bytes in time, then 0xE0 for another slave, 0xE1 for another function, the exception code, 0xE2 for a reply that breaks off, 0xE3 for a wrong CRC |
| ModbusSpec.LengthByFunction | components/arduino/libraries/ModbusMeter/ModbusMeter.cpp:148-170 | the length of a reply by function code |
| ModbusSpec.CodeZeroAccepted | components/arduino/libraries/ModbusMeter/ModbusMeter.cpp:142-146 | an exception frame with code zero and a right CRC passes for success, for every function |
| ModbusSpec.WrongCrcAccepted | components/arduino/libraries/ModbusMeter/ModbusMeter.cpp:172-193 | a reply of 256 bytes with a wrong CRC passes for success |
| ModbusSpec.DamageIsReported | components/arduino/libraries/ModbusMeter/ModbusMeter.cpp:125-193 | damage to an accepted reply, to reads with up to 250 bytes and to all writes, as a burst of sixteen bits or an odd number of bits that leaves the announced length alone, is never reported as success, except as an exception with code zero |
| ModbusSpec.LengthIsFixed | components/arduino/libraries/ModbusMeter/ModbusMeter.cpp:145-170 | replies to writes always announce the same length; replies to reads exactly if the byte count is undamaged |
| ModbusSpec.CountDamagePasses | components/arduino/libraries/ModbusMeter/ModbusMeter.cpp:145-193 | damage to the byte count alone can pass: every accepted reply to a read is what it makes of some longer accepted reply |
| ModbusSpec.RegistersReadBack | components/arduino/libraries/ModbusMeter/ModbusMeter.cpp:199-240 | a slave's reply with up to 125 registers is accepted and its registers are the response words in order |
| ModbusSpec.WordBytesValue | components/arduino/libraries/ModbusMeter/ModbusMeter.cpp:229-236 | registers go over the wire with the high byte first |
| ModbusSpec.BitsReadBack | components/arduino/libraries/ModbusMeter/ModbusMeter.cpp:199-226 | coil k of a slave's reply is bit k mod 16 of response word k / 16 |
| ModbusSpec.OtherWordsStay | components/arduino/libraries/ModbusMeter/ModbusMeter.cpp:199-240 | response words that the reply does not reach stay, and replies to writes change none |
| ModbusSpec.RequestAsks | components/arduino/libraries/ModbusMeter/ModbusMeter.cpp:58-75 | the request is eight bytes: slave, function, address and quantity with the high byte first, and CRC zero as a whole |
| ModbusSpec.OneRequest | components/arduino/libraries/ModbusMeter/ModbusMeter.cpp:58-75 | no other eight bytes are |
| ModbusSpec.RequestExample | components/arduino/libraries/ModbusMeter/ModbusMeter.cpp:252 | the read of six registers at 0x000E from slave 1 is 01 03 00 0E 00 06 A4 0B |
| ModbusSpec.RequestIsValid | components/arduino/libraries/ModbusMeter/ModbusMeter.cpp:58-75 | a slave that checks the request the same way finds its CRC zero |
| ModbusSpec.CrcHoldsIffZero | components/arduino/libraries/ModbusMeter/ModbusMeter.cpp:181-192 | comparing the last two bytes is checking that the whole frame has CRC zero |
| Modbus.SendAndReceive | components/arduino/libraries/ModbusMeter/ModbusMeter.cpp:44-193 | the eight bytes sent carry slave, function, address, quantity and CRC in their places, the status is Result for every behaviour of the line, and an accepted frame stands in the buffer |
| Modbus.Receive | components/arduino/libraries/ModbusMeter/ModbusMeter.cpp:110-176 | the receive loop ends, with the status, counter and buffer contents the specification gives, the counter wrapping at 256 |
| Modbus.CheckHeader | components/arduino/libraries/ModbusMeter/ModbusMeter.cpp:125-170 | slave, function and exception bit are checked in this order, then the bytes left are set by function |
| Modbus.VerifyCrc | components/arduino/libraries/ModbusMeter/ModbusMeter.cpp:178-193 | the CRC is compared only if the counter stands at five or more |
| Modbus.ModbusMeter.Disassemble | components/arduino/libraries/ModbusMeter/ModbusMeter.cpp:199-240 | register words are high byte first, bit words low byte first with an odd last byte on its own; other words stay |
| Modbus.ModbusMeter.MasterTransaction | components/arduino/libraries/ModbusMeter/ModbusMeter.cpp:44-243 | the eight bytes sent carry slave, function, address, quantity and CRC in their places; for byte counts up to 250 the status is Result and the response words are those of the consumed frame, changed only on success |
| Modbus.ModbusMeter.ResponseWord | components/arduino/libraries/ModbusMeter/ModbusMeter.cpp:32-42 | after a transaction that brought n registers the getter returns register i for i below n, the old word behind them, and 0xFFFF past the buffer |
| Slip.WriteEscapes | components/arduino/tools/esptool.py:223-227 | the two replacements one after the other are the standard's byte-by-byte escaping |
| Slip.NoDelimiterInside | components/arduino/tools/esptool.py:223-227 | the delimiter never occurs inside a frame |
| Slip.FrameExample | components/arduino/tools/esptool.py:223-227 | 01 C0 DB 02 is written as C0 01 DB DC DB DD 02 C0 |
| Slip.PlainWritten | components/arduino/tools/esptool.py:223-227 | a packet without special bytes is written between two delimiters as it is |
| Slip.RaisedExactly | components/arduino/tools/esptool.py:1565-1587 | which error the reader raises, and when |
| Slip.ReadStream | components/arduino/tools/esptool.py:1549-1587 | every list of packets written is read back in order without an error |
| Slip.AcceptsExactlyStreams | components/arduino/tools/esptool.py:1549-1587 | the reader ends between packets exactly on the streams a writer can produce, and the packets it yields write that stream |
| Slip.ReadAccounts | components/arduino/tools/esptool.py:1565-1587 | whatever is read without an error is the packets yielded, written out, and the bytes of the packet under way |
| Slip.ReadSplit | components/arduino/tools/esptool.py:1558-1565 | reading in two chunks is reading in one |
| Slip.SlipReader.Feed | components/arduino/tools/esptool.py:1558-1587 | a chunk yields what the machine yields; an empty read is a timeout, told apart by header and content |
| Slip.ReadChunks | components/arduino/tools/esptool.py:1549-1587 | a written stream in any nonempty chunks is yielded as exactly the packets written |
| ReplaceSpec.GrownExactly | components/arduino/cores/esp32/WString.cpp:771-792 | replacing from the right equals left-to-right replacement for every text if and only if no proper end of the pattern begins the pattern or its replacement |
| ReplaceSpec.GrownIsReplaceAll | components/arduino/cores/esp32/WString.cpp:783-791 | without such an overlap the growing branch gives the left-to-right result |
| WString.String.Replace | components/arduino/cores/esp32/WString.cpp:746-793 | in place, the text becomes its left-to-right non-overlapping replacement, or with a longer replacement the right-to-left one, which is the same without overlaps; only a growing text can fail, without memory and beyond the capacity, and then the buffer is lost |
| WString.String.ReplaceEqual | components/arduino/cores/esp32/WString.cpp:754-758 | the equal-length branch gives the left-to-right replacement for every pattern |
| WString.String.ReplaceShrinking | components/arduino/cores/esp32/WString.cpp:759-770 | the shrinking branch gives the left-to-right replacement for every pattern |
| WString.String.CountSize | components/arduino/cores/esp32/WString.cpp:772-779 | the size counted in advance is the length of the result, and equal only if nothing is replaced |
| WString.String.ReplaceGrowing | components/arduino/cores/esp32/WString.cpp:771-792 | for every pattern whose result fits the buffer as enlarged, and for all without overlaps, the growing branch gives the right-to-left replacement; without overlaps it is the left-to-right one |
| WString.RunOverruns | components/arduino/cores/esp32/WString.cpp:771-792 | aa replaced by aaa in a text of n times a: the exact sizes needed and provided for; for n = 40 and a capacity below 60 the result overruns the buffer |
| WString.String.LastIndexOf | components/arduino/cores/esp32/WString.cpp:688-707 | the forward searches find the last occurrence at or before the index |
| WString.String.ChangeBuffer | components/arduino/cores/esp32/WString.cpp:166-182 | the text moves to a zeroed buffer of exactly the next multiple of sixteen; without memory the buffer is gone |
| WString.RoundedUpExactly | components/arduino/cores/esp32/WString.cpp:166-170 | the new buffer is the least multiple of sixteen above the size |
| ReplaceSpec.SearchStep | components/arduino/cores/esp32/WString.cpp:755-777 | one strstr from the left splits text and result at the next occurrence |
| CBuf.Cbuf.WriteBulk | components/arduino/cores/esp32/cbuf.cpp:158-173 | as many bytes as there is room for are appended, in one piece or around the end |
| CBuf.Cbuf.WriteChar | components/arduino/cores/esp32/cbuf.cpp:147-156 | one byte is appended unless size - 1 are held |
| CBuf.Cbuf.ReadBulk | components/arduino/cores/esp32/cbuf.cpp:130-145 | the oldest bytes are copied out and dropped; the bytes held are always the accepted ones not yet taken, in order |
| CBuf.Cbuf.ReadChar | components/arduino/cores/esp32/cbuf.cpp:119-128 | the oldest byte is taken, or -1 |
| CBuf.Cbuf.PeekBulk | components/arduino/cores/esp32/cbuf.cpp:102-117 | the oldest bytes are copied out and stay |
| CBuf.Cbuf.PeekChar | components/arduino/cores/esp32/cbuf.cpp:93-100 | the oldest byte, or -1 |
| CBuf.Cbuf.Remove | components/arduino/cores/esp32/cbuf.cpp:181-196 | the oldest bytes are dropped, all if there are no more than asked; the rest is counted |
| CBuf.Cbuf.Flush | components/arduino/cores/esp32/cbuf.cpp:175-179 | nothing is held afterwards |
| CBuf.Cbuf.Available | components/arduino/cores/esp32/cbuf.cpp:72-78 | the number of bytes held |
| CBuf.Cbuf.Room | components/arduino/cores/esp32/cbuf.cpp:85-91 | size - 1 less the bytes held |
| CBuf.Cbuf.Resize | components/arduino/cores/esp32/cbuf.cpp:38-70 | contents and order survive, the cells behind them are zero, and the buffer is usable afterwards if and only if newSize + 1 is not the number of bytes held |
| CBuf.PutAround | components/arduino/cores/esp32/cbuf.cpp:163-171 | two copies around the end of the buffer append their concatenation |
| CBuf.TakeAround | components/arduino/cores/esp32/cbuf.cpp:135-143 | two copies around the end of the buffer are the front of the contents |
| Calendar.ThereAndBack | components/arduino/libraries/RTClib/RTClib.cpp:74-99 | unixtime(DateTime(t)) is t for every 32-bit t |
| Calendar.BackAndThere | components/arduino/libraries/RTClib/RTClib.cpp:182-189 | a valid stamp whose seconds fit 32 bits is rebuilt from its unixtime field by field |
| Calendar.DateTime.FromUnixtime | components/arduino/libraries/RTClib/RTClib.cpp:74-99 | the fields are a valid date and time of a calendar with a leap year every fourth year, whose seconds from 2000 are those of t |
| Calendar.DateTime.Unixtime | components/arduino/libraries/RTClib/RTClib.cpp:182-189 | the seconds of the stamp from 1970, in 32-bit arithmetic |
| Calendar.Date2Days | components/arduino/libraries/RTClib/RTClib.cpp:55-64 | the closed formula and the month loop are the day count of the year-by-year and month-by-month sums, mod 65536 |
| Calendar.DayNumberInjective | components/arduino/libraries/RTClib/RTClib.cpp:55-64 | every day has one date |
| Calendar.CountedByDays | components/arduino/libraries/RTClib/RTClib.cpp:55-64 | days are counted one by one from 2000-01-01, over month and year ends |
| Calendar.MonthLengths | components/arduino/libraries/RTClib/RTClib.cpp:52-60 | the month lengths, and February's by the two rules |
| Calendar.TimeExample | components/arduino/libraries/RTClib/RTClib.cpp:74-99 | 2018-06-15 12:34:56 is 1529066096 |
| Calendar.GregorianUntil2100 | components/arduino/libraries/RTClib/RTClib.cpp:84-97 | the source's dates are Gregorian dates exactly up to the end of February 2100 |
| Calendar.YearsClosed | components/arduino/libraries/RTClib/RTClib.cpp:63 | 365*y + (y+3)/4 is the sum of the year lengths |
| Partition.Layout | components/arduino/tools/gen_esp32part.py:67-79 | line by line: name, type, subtype and flag are kept, a given offset is kept, a missing one is the least multiple of 0x10000 (app) or 4 (else) from the end of the entry before, or 0x5000, a size is kept, and a negative size makes the entry end at that address |
| Partition.LayoutAccepted | components/arduino/tools/gen_esp32part.py:67-103 | a table whose offsets are omitted, or aligned and in order, with sizes from zero up, is laid out so that verification accepts it |
| Partition.Verify | components/arduino/tools/gen_esp32part.py:92-103 | acceptance is alignment, offsets from 0x5000 up and no overlap of neighbours after the stable sort; misalignment is reported first, then an offset below 0x5000, then an overlap |
| Partition.AllSound | components/arduino/tools/gen_esp32part.py:96-99 | the alignment and the lower bound, entry by entry |
| Partition.EachPairApart | components/arduino/tools/gen_esp32part.py:100-103 | that all pairs are apart, byte range by byte range |
| Partition.AcceptanceMeansApart | components/arduino/tools/gen_esp32part.py:96-103 | checking sorted neighbours implies that all pairs are apart for sizes from zero up, and is equivalent to it for positive sizes |
| Partition.SortedPairwise | components/arduino/tools/gen_esp32part.py:98 | whether entries overlap does not depend on their order |
| Partition.AlreadySorted | components/arduino/tools/gen_esp32part.py:98 | the stable sort leaves an in-order table alone |
| PartitionBinary.TableRoundTrip | components/arduino/tools/gen_esp32part.py:106-122 | a table that can be written has 3072 bytes and is read back as it was if and only if every name has at most sixteen bytes, none of them zero |
| PartitionBinary.EntryExample | components/arduino/tools/gen_esp32part.py:258-287 | the 32 bytes of nvs at 0x9000, encrypted |
| PartitionBinary.BinaryForm | components/arduino/tools/gen_esp32part.py:117-122 | the entries, 0xFF up to 3072 bytes, and exactly when it is refused |
| PartitionBinary.ReadDecides | components/arduino/tools/gen_esp32part.py:105-115 | for every file: what comes behind the entries with magic bytes decides between a table, a missing marker, a wrong length and wrong magic bytes |
| PartitionBinary.NameRoundTrip | components/arduino/tools/gen_esp32part.py:264-266 | cutting a stored name at its first zero gives the name back exactly under that condition |
| PartitionBinary.EntryRoundTrip | components/arduino/tools/gen_esp32part.py:258-287 | every other field of an entry comes back |
| PartitionBinary.ToBinary | components/arduino/tools/gen_esp32part.py:117-122 | entries then 0xFF to 3072 bytes, or the error: a field out of range, or 96 entries and more |
| PartitionBinary.FromBinary | components/arduino/tools/gen_esp32part.py:105-115 | entries up to the end marker, or the error: length, magic, no marker |
| PartitionBinary.OmittedOffsetsSurvive | components/arduino/tools/gen_esp32part.py:67-122 | a table laid out from omitted offsets is accepted and survives the binary form |
| TrimmedMean.GetAvgAdc | components/arduino/libraries/AnalogSensor/AnalogSensor.cpp:116-200 | more than six readings: the floored mean of the sorted readings without the first and last three; fewer than six: 32-bit wrap-around gives 1 or 0, 1 exactly if the trackers exceed the sum by at most 6 less their number |
| TrimmedMean.Track | components/arduino/libraries/AnalogSensor/AnalogSensor.cpp:143-175 | the nested comparisons keep the trackers equal to the three smallest and three largest readings |
| TrimmedMean.Robust | components/arduino/libraries/AnalogSensor/AnalogSensor.cpp:195 | if at most three readings lie outside a range, the result lies within it |
| TrimmedMean.SortedPermutes | components/arduino/libraries/AnalogSensor/AnalogSensor.cpp:128-193 | sorting, the reference of the trackers, only rearranges the readings |
| TrimmedMean.MiddleSum | components/arduino/libraries/AnalogSensor/AnalogSensor.cpp:195 | the sum less the six trackers is the sum of the middle readings |
| ThaiSms.Send | components/arduino/libraries/UC20/sms.cpp:36-104 | a message of at most 255 bytes of CR, LF, 0x10 to 0x7F and Thai is sent as four hex digits for each code point |
| ThaiSms.ToTis620 | components/arduino/libraries/UC20/sms.cpp:161-216 | digits with Thai text become TIS-620 codes; without it they are returned as they are |
| ThaiSms.ToUtf8 | components/arduino/libraries/UC20/sms.cpp:218-260 | the codes become the UTF-8 bytes of the message |
| ThaiSms.CodesOfPoint | components/arduino/libraries/UC20/sms.cpp:36-260 | UTF-8 bytes, hex digits and TIS-620 code stand for the same code point |
| ThaiSms.KoKai | components/arduino/libraries/UC20/sms.cpp:36-260 | U+0E01 is 0E01, A1, and E0 B8 81 |
| ThaiSms.FindThai | components/arduino/libraries/UC20/sms.cpp:167-181 | the first pass finds a pair 0E exactly if the message holds a Thai character |
| ThaiSms.RoundTripExactly | components/arduino/libraries/UC20/sms.cpp:182-185 | a message comes back as sent if and only if it holds a Thai character, or nothing |
| ThaiSms.ThereAndBack | components/arduino/libraries/UC20/sms.cpp:36-260 | sending and converting back gives the original bytes exactly under that condition |
| ThaiSms.TerminatorFitsExactly | components/arduino/libraries/UC20/sms.cpp:223-255 | for every valid message the terminating zero fits the receiver's buffer exactly if some character is not Thai; all-Thai and empty messages overrun it |

## Left out

- The flash indices are unbounded here; the 32-bit wrap-around of wIndex and rIndex after 2^32 records is not modelled.
- Power cuts are modelled before and between the NVRAM stores of a step, the first setup() included, not inside a flash operation or inside one store.
- readMeterData of ModbusMeter and the other callers of the transaction, the sensor and flow copies of the flash and posting code, and posting with batch 0 for those (the functions are empty).
- JSON payloads, WiFi, NTP, LEDs, watchdogs and serial output; measured values are opaque 32-bit words.
- FlashMeter.SPIFlashMeter.Begin: record size 0, for which the source divides by zero; after begin the class is modelled for the record size 64 that the firmware passes.
- Logger.MeterLogger.PostTask: a batch of more than the 21 records that the read buffer holds, with that many records waiting, overruns the buffer; the source does not check it.
- ImagePacker.Save: segments are whole words at 32-bit addresses, as ImageSegment pads them; the call that never returns is modelled by the result NeverEnds; the SHA-256 digest is a parameter.
- ImageFormat.Load: checking the stored digest against the file, which the source computes and does not use.
- Base64.Encode: the lengths 1, 2, 4 and 7, whose text overruns the allocation; the single-precision product length * 1.6 is modelled as length * 8 / 5 rounded down.
- Base64.DecodeBlock: the character after 'z', for which the source reads one entry past its table.
- Modbus.ModbusMeter.MasterTransaction: byte counts above 250, for which the 8-bit counter wraps and the buffer is overwritten from its start; SendAndReceive covers their status. uart_read_bytes returning an error code is not modelled.
- WString.String.Replace: overlapping patterns whose longer result overruns the enlarged buffer (RoomFor); arguments that alias the string; memcpy and strcpy over overlapping ranges are modelled as copying forward.
- CBuf.Cbuf.PeekChar: characters are unsigned, so -1 always means empty.
- The constructors of DateTime from text, the RTC registers and their BCD conversion: they add only easy members.
- Partition.Layout: parsing of the CSV text; the entries are values, so the objects the source fills in place are rebuilt instead.
- PartitionBinary.TableRoundTrip: names are byte strings; their UTF-8 coding, and the warning about unknown flags, are not modelled.
- TrimmedMean.GetAvgAdc: exactly six readings, for which the source divides by zero.
- ThaiSms.Send: messages of 256 bytes and more, on which the 8-bit index never reaches the end, and characters outside the stated alphabet.
- ELF parsing, compression, the stub loader, argument handling and the rest of the build tools; GPIO, timers and all other peripherals.
