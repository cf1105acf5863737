# PMB887X boot loader, protocols and parsers: a verified model

The repository loads programs into PMB887X phones over a serial line and talks to the hardware
once they run. This project models the parts where a silent mistake costs most and proves what
they promise, for every input:

- **Payload loader** (`Lz4Format`, `Lz4Encoder`, `Lz4Decoder`, `Crc32`, `CrcDivision`, `Frames`, `Preloader`,
  `Loader`).
  The PC cuts a payload into 4 KiB blocks, compresses each with a greedy LZ4 matcher and frames it;
  the phone parses frames, decompresses in place and checks a CRC. The theorem at the top says that
  whatever the payload, every block is acknowledged and the phone's memory holds the payload
  afterwards. Below it stand a grammar of the LZ4 Block Format Description that knows neither end, a
  proof that the compressor emits the *unique* greedy block of its input, a proof that the
  decompressor accepts exactly the blocks that decode to the announced size, the CRC-32 of section 8
  of RFC 1952 as the one remainder by its polynomial, a log of every byte the PC puts on the line,
  and stream synchronisation over whole runs of the dispatch loop.
- **EEPROM parser** (`EepromFormat`, `EepromParser`, `EepromImage`). A declarative lookup over a flash image (two
  partition layouts, two types, striped inline storage, duplicates, early exits), proved to have at
  most one answer, and the parser proved to give it without ever indexing outside the image; images
  written out byte by byte show which answer that is.
- **Protocols as step machines** (`SimExchange`, `CcidFraming`, `HostCommands`, `HostScript`, `I2cWords`,
  `I2cDrivers`).
  T=0 card exchange, framing between PC and SIM reader in both directions, the host's incremental
  command interpreter with the scripts it runs, and two I2C drivers that should put the same words on the bus.
- **Exact arithmetic** (`CubeRoot`, `SmbusPec`, `Usart`). Cube roots modulo a power of two, the SMBus
  packet error code as division over GF(2), and the rounding error of the baud-rate divider.

Device memory is an array of 2^32 bytes with wrapping addresses. A serial line is the sequence of
bytes still to come and the sequence sent; running out of bytes is the read that never returns, or
the timeout where the program has one. Hardware status is a script of polls that the model takes as
input. Bytes are integers below 256, or bit-vectors where single bits matter. Code that changes state
is modelled as classes and methods over that state, pure code as functions; `Bytes`, `BitMath` and
`Memory` hold what they share.

Where the code does not do what it was meant to, the model keeps the code and says when it does:

- `I2cWords.DriversAgree`, `I2cWords.DriversDiffer`, `I2cWords.BusBytesAgree`, `I2cWords.SpillBreaksPec`: the first I2C driver does not truncate the
  shifted address to a byte. Both drivers load the same words exactly when the address has seven
  bits or the first payload byte has its low bit set anyway.
- `HostCommands.SafeLineIff`, `HostCommands.OpenBlockIff`, `HostCommands.SafeBlockIff`: `EXPECT` reads from the port, so it
  misses bytes that have been read together with its own line. After any lines that do not look at
  the port, the next line, or a whole block from `BEGIN` to `END`, keeps the outcome independent of
  how the reads are cut exactly when what it executes has no bytes to wait for, or would fail even
  if they came.
- `SimExchange.PacingIrrelevantIff`: INS codes 0x60 and 0x9F, which ISO/IEC 7816-3 rules out and the
  reader accepts, are the two for which a card's pacing changes what the reader hears.
- `Usart.CappedBoundIff`, `Usart.CappedBoundFails`: at very low rates the fraction rounds to 0, which the hardware takes
  for no fractional division at all.
- `CubeRoot.RootExistsIff`, `CubeRoot.UniqueRootIff`: the error text in `boot/fakesign.py` says a target must be odd
  for a root to exist. A root exists exactly when the target is 0 modulo 2^n or the exponent of 2 in
  it is a multiple of three (`CubeRoot.EvenTargetWithRoot`: 8 has the root 2); what the oddness
  tested for is equivalent to is that there is exactly one.

`dafny verify dfyconfig.toml` checks everything.

## Model

| member | source | states |
|---|---|---|
| Lz4Format.CopyMatchIsPeriodic | preloader/src/lz4.c:54-57 | a short-distance match repeats the last `distance` bytes periodically: byte i of the copy is byte `i mod distance` of the period |
| Lz4Format.DecodeStep | preloader/src/lz4.c:24-58 | the grammar's meaning of a block, parse first and expand then, is the same as working one sequence at a time |
| Lz4Format.BlockRoundTrip | boot.py:287-307 | any block with 16-bit distances and matches of at least four bytes, extended lengths included, parses back from its serialised form |
| Lz4Format.LengthFieldBytes | boot.py:258-262 | the extended length of 14, 15, 269, 270 and 525, byte by byte |
| Lz4Format.ShortBlockDecodes | preloader/src/lz4.c:39-57 | a block written out in bytes, with the distance bytes `[d, 0]`, copies from d back: the first distance byte is the low one |
| Lz4Encoder.GreedyExpands | boot.py:273-300 | a list of greedy sequences is well formed and expands to exactly the data it covers, overlapping matches included |
| Lz4Encoder.GreedyBlockUnique | boot.py:265-307 | earliest match, nearest candidate, longest extension: the input determines the block, so the compressor's output is fixed by its specification |
| Lz4Encoder.GreedyBlockDecodes | boot.py:265-307 | the serialised greedy block of any input decodes to that input |
| Lz4Encoder.GreedyBlockSize | boot.py:265-307 | output is at most n + n/255 + 2 bytes and never empty, within the usual LZ4 bound of n + n/255 + 16 |
| Lz4Encoder.GreedyBlockEnd | boot.py:270-271 | the format's end-of-block conditions: at least the last five bytes are literals, every match starts at least 12 bytes before the end, and inputs under 13 bytes are all literals |
| Lz4Encoder.Reach | boot.py:277-279 | an equal window 65535 bytes back is a candidate, one farther back is not |
| Lz4Encoder.PeriodicBlock | boot.py:265-307 | data of any period up to 65535 without a shorter repetition, from 12 bytes past one period on, becomes one period of literals, one match and the last five bytes |
| Lz4Encoder.SampleBlock | boot.py:265-307 | "abcd" five times is compressed to 47 61 62 63 64 04 00 50 64 61 62 63 64 |
| Lz4Encoder.AppendLength | boot.py:258-262 | appends the extended-length bytes of the format |
| Lz4Encoder.ExtendMatch | boot.py:281-283 | finds the longest match end short of the last five bytes |
| Lz4Encoder.AppendSequence | boot.py:285-293 | token nibbles, extended lengths, literals and distance make one serialised sequence |
| Lz4Encoder.EnterWindows | boot.py:298-300 | afterwards the index holds the latest position of every window before the end of the match |
| Lz4Encoder.CompressBlock | boot.py:265-307 | produces the serialised greedy block of its input and nothing else, decodable and within the size bound |
| Lz4Decoder.ReadLength | preloader/src/lz4.c:3-16 | follows the grammar's length field, stays inside the input, and keeps the sum modulo 2^32 |
| Lz4Decoder.CopyLiterals | preloader/src/lz4.c:34-35 | appends the announced input bytes to the output and touches nothing else |
| Lz4Decoder.CopyBack | preloader/src/lz4.c:54-57 | the in-place byte loop is the grammar's match copy |
| Lz4Decoder.TakeLiterals | preloader/src/lz4.c:25-35 | takes the literals the grammar finds at the token, or stops exactly when length, input or room does not allow it |
| Lz4Decoder.TakeMatch | preloader/src/lz4.c:39-57 | takes the match the grammar finds after the literals, or stops exactly when distance, length or room is wrong |
| Lz4Decoder.Decompress | preloader/src/lz4.c:18-61 | on arbitrary bytes it ends and writes only the output range; it returns true exactly when the block decodes to `outputSize` bytes, and then those bytes are in place |
| Crc32.UpdateIsTable | preloader/src/crc.c:5-19 | the bit loop equals the table-driven update of section 8 of RFC 1952 on every register and message |
| Crc32.UpdateConcat | preloader/src/crc.c:5-19 | the checksum of any split into batches is that of the whole |
| Crc32.UpdateInjective | preloader/src/crc.c:8-16 | after the same bytes, different registers stay different |
| Crc32.BurstDetected | preloader/src/crc.c:5-19 | two messages of equal length that differ only inside four consecutive bytes never share a checksum |
| Crc32.ComplementIsChecksum | preloader/src/main.c:131-140 | what the device compares with is the RFC 1952 checksum |
| CrcDivision.DivisionStep | preloader/src/crc.c:9-15 | one message bit is one step of long division by the generator polynomial |
| CrcDivision.UpdateIsRemainder | preloader/src/crc.c:5-19 | the register after any message is a remainder of the message polynomial times x^32 with its leading 32 coefficients flipped |
| CrcDivision.RemainderUnique | preloader/src/crc.c:5-19 | such a remainder is unique |
| CrcDivision.ChecksumIsTheRemainder | preloader/src/crc.c:3-19 | the checksum is the complement of the remainder by x^32 + x^26 + x^23 + x^22 + x^16 + x^12 + x^11 + x^10 + x^8 + x^7 + x^5 + x^4 + x^2 + x + 1 over GF(2), and nothing else is; the generator is given by its exponents, bytes enter least significant bit first |
| CrcDivision.CheckValue | preloader/src/crc.c:3-19 | the digits 1 to 9 have the checksum CBF43926 |
| Crc32.UpdateRange | preloader/src/crc.c:5-19 | the byte loop over memory computes the update over exactly that range |
| Crc32.UpdateBits | preloader/src/crc.c:9-15 | the eight-step inner loop is one byte of the update |
| Frames.ParseEncode | boot.py:227-255 | the device recovers exactly the frame the host wrote, whatever bytes follow |
| Frames.RequestBytes | boot.py:227-246 | ping, goto, speed and window requests byte by byte |
| Frames.WriteBytes | boot.py:249-255 | raw and compressed write requests byte by byte: address, sizes, data, checksum, each word least significant byte first |
| Frames.StatusBytes | preloader/src/main.c:20-25 | a write is answered with C1 when its checksum is right and 1C when not, a ping with 52, a goto with C1 |
| Frames.MappableBounds | preloader/src/main.c:52-70 | the window the host asks for is mappable; so are 4 KiB and 128 MiB, but not half the one or twice the other, three pages or half a page off |
| Frames.ParseSetSpeed | preloader/src/main.c:94-100 | everything up to the next ping is skipped as noise of the speed change |
| Frames.ParseInitExtram | preloader/src/main.c:46-50 | address and size are recovered from the request |
| Frames.ParseWriteRam | preloader/src/main.c:113-129 | address, data of the declared size and checksum are recovered |
| Frames.ParseWriteLz4 | preloader/src/main.c:160-182 | address, sizes, compressed data and checksum are recovered |
| Preloader.Device.ReadInto | lib/usart.c:42-54 | whatever the FIFO levels, the next bytes of the line are stored in order and consumed once |
| Preloader.Device.Discard | preloader/src/main.c:148-158 | consumes exactly `size` bytes and changes nothing else |
| Preloader.Device.CmdPing | preloader/src/main.c:41-44 | answers with one pong |
| Preloader.Device.CmdInitExtram | preloader/src/main.c:46-92 | success exactly for a power-of-two window of 4 KiB to 128 MiB that is naturally aligned; exactly then the requested window is set, otherwise it stays |
| Preloader.Device.CmdSetSpeed | preloader/src/main.c:94-100 | selects the rate received, consumes up to and including the next ping and answers once |
| Preloader.Device.CmdGoto | preloader/src/main.c:191-199 | answers with success and leaves for the given address |
| Preloader.Device.Receive | preloader/src/main.c:118-126 | batches of 256 store the same bytes as one read |
| Preloader.Device.ChecksumOf | preloader/src/main.c:131-138 | batches of 256 give the update over the whole range |
| Preloader.Device.CmdRamWrite | preloader/src/main.c:113-146 | consumes exactly one frame, stores its data, and answers success exactly when the checksum matches |
| Preloader.Device.CmdWriteRamLz4 | preloader/src/main.c:160-189 | consumes exactly one frame even when it is refused, answers once, and on success memory has the announced checksum; when the target avoids the scratch block, success means that the block decodes to the announced size and its bytes are in place |
| Preloader.Device.Dispatch | preloader/src/main.c:206-223 | one turn of the loop serves the next frame of the stream, and drops any other byte silently; window and speed change only by their own commands |
| Preloader.Device.Run | preloader/src/main.c:201-224 | a run is a chain of served frames that ends only inside an incomplete frame or by a goto |
| Loader.DecompressCompressed | preloader/src/lz4.c:18-61 | the device's decompressor, given the host's compressed form of any data below 2^32 bytes, returns true and rebuilds exactly that data |
| Loader.Synchronised | preloader/src/main.c:201-224 | whatever sizes and checksums frames declare, after k turns exactly k frames are consumed and the rest of the stream is whole |
| Loader.StreamAnswered | preloader/src/main.c:201-224 | a run that can go no further has consumed every frame and answered each exactly once |
| Loader.Regions | boot.py:601-610 | the regions accepted: 96 KiB from 00080000 and 32 MiB from B0000000 on |
| Loader.HostFrameFits | boot.py:319-326 | every frame the host chooses passes the device's 4096-byte checks and decodes to its block |
| Loader.ShorterFormSent | boot.py:322-326 | whatever the frame chosen, its data field is as long as the shorter of compressed and raw form, and compressed exactly when that is strictly shorter |
| Loader.SampleOnTheWire | boot.py:310-326 | the frame for "abcd" five times, byte by byte up to its checksum |
| Loader.PayloadFrameCount | boot.py:320-321 | one frame for every 4096 bytes begun, the k-th for the bytes from 4096 k on |
| Loader.BlockLoaded | boot.py:319-326 | one block, raw or compressed, extends what is loaded and is answered with success |
| Loader.PayloadProgress | boot.py:319-326 | after k turns exactly the first k blocks are in memory and k successes have been sent |
| Loader.PayloadDelivered | boot.py:319-326 | end to end over runs: the payload is in place, other memory outside the scratch block is unchanged, every block was acknowledged |
| Loader.DeliveredBytes | preloader/src/main.c:6-9 | the same in absolute addresses: the payload lies from its address on, and nothing else has changed but the 4 KiB from 01002000 on |
| Loader.CorruptedWriteRefused | preloader/src/main.c:128-145 | a raw block damaged within four consecutive bytes on the line is answered with failure |
| Loader.ExpectSuccess | boot.py:249-255 | the host's wait for a status sees the one answer to its frame |
| Loader.Port.Write | boot.py:252-254 | what the host writes reaches the device and is kept in the log of the line |
| Loader.PreloaderInitExtram | boot.py:243-246 | the request for 32 MiB at B0000000 goes out as one frame and succeeds |
| Loader.PreloaderWrite | boot.py:249-255 | what goes out is exactly one raw frame, and the call succeeds exactly on a success status |
| Loader.PreloaderWriteLz4 | boot.py:310-316 | what goes out is exactly one compressed frame, and the call succeeds exactly on a success status |
| Loader.WriteBlock | boot.py:321-326 | what goes out is the one frame chosen for the block, compressed when that is shorter; the block is stored and acknowledged |
| Loader.PreloaderWritePayload | boot.py:319-326 | for every payload that fits its region: never raises, sends exactly the frames chosen for its blocks in order, leaves the payload in place and gets one success per frame |
| EepromFormat.SlotsIncrease | unit/eeprom.c:79-84 | striped storage positions rise strictly |
| EepromFormat.SlotOnto | unit/eeprom.c:79-84 | every offset with bit 4 clear is a storage position |
| EepromFormat.InlineLastByte | unit/eeprom.c:202-208 | the last inline byte lies exactly 17 below the entry |
| EepromParser.InlineArithmetic | unit/eeprom.c:203-208 | the reserved-size check is exactly the row count, and the aligned start is the right storage position |
| EepromParser.StripedMap | unit/eeprom.c:71-84 | for every accepted size the byte map hits only offsets with bit 4 clear, rises strictly and ends at `entry_offset - 17` |
| EepromParser.InlineBytes | unit/eeprom.c:166-185 | reading back through the map gives the stored bytes inside the partition, so neither failure of the copy is reachable |
| EepromParser.PartitionHeaderMatches | unit/eeprom.c:119-131 | true exactly for the name, the marker and erased padding |
| EepromParser.DecodeLeadingVersion | unit/eeprom.c:148-157 | version first, then the data without its metadata |
| EepromParser.DecodeSgBlock | unit/eeprom.c:133-164 | verdict, range and version agree with the declarative meaning of an SG entry |
| EepromParser.CopyNsgInlineBlock | unit/eeprom.c:166-185 | succeeds exactly when size and every mapped offset are in range, and copies those bytes |
| EepromParser.DecodeNsgBlock | unit/eeprom.c:187-240 | verdict, range or inline bytes, and version agree with the declarative meaning of an NSG entry |
| EepromParser.DecodeInline | unit/eeprom.c:202-236 | inline entries deliver their stored bytes through the inline buffer |
| EepromParser.ClassifyEntry | unit/eeprom.c:260-283 | state mask, known states, id width, id range and id base, test by test, classify an entry as the declarative lookup does |
| EepromParser.FlagByComparison | unit/eeprom.c:150-151 | the version flag test takes six bytes of metadata exactly from 0x80 on, the erased value aside |
| EepromParser.FindPartitionBlock | unit/eeprom.c:242-296 | SG: the first free, broken or matching entry decides; NSG: the last match wins if every match decodes |
| EepromParser.FindPartition | unit/eeprom.c:311-331 | finds the SG partition at a block, else the NSG partition ending there, if it fits |
| EepromParser.FindFlashBlock | unit/eeprom.c:298-344 | the first partition in block order that has something to say decides |
| EepromParser.EepromFindBlockInMemory | unit/eeprom.c:346-369 | bad arguments are invalid; otherwise the answer is the declarative lookup of the image |
| EepromParser.FoundDataInside | unit/eeprom.c:346-369 | on success the returned range lies inside a partition of the image, or is the inline buffer with at most 0x200 bytes |
| EepromParser.PartitionFindsOne | unit/eeprom.c:242-296 | a partition has one answer per block id |
| EepromParser.ReportedOnce | unit/eeprom.c:346-369 | two reports for the same image and block id agree on verdict, version and every byte of the data |
| EepromParser.LookupOne | unit/eeprom.c:298-369 | the declarative lookup has at most one outcome, so the parser's answer is determined by the image |
| EepromImage.StateRead | unit/eeprom.c:59-69 | the masked state word is what the odd-numbered bits of its four bytes say |
| EepromImage.InlineFromEnd | unit/eeprom.c:71-84 | counted from the end, inline byte d lies 17 + 32 (d / 16) + d mod 16 below the entry |
| EepromImage.NsgMatchIff | unit/eeprom.c:260-283 | an NSG row matches a block exactly when its state bytes are current and bytes 4 and 5 (EELITE) or 4 to 7 (EEFULL) hold its number, less 5000 for EEFULL |
| EepromImage.SgBlockFound | unit/eeprom.c:133-164 | SG: the first row that holds the block, over rows that do not, gives its data, with the version last (EELITE) or first and five bytes of metadata where the version asks for them (EEFULL) |
| EepromImage.SgBlockInvalid | unit/eeprom.c:254-293 | SG: a damaged row or impossible number ends the search with an error, and so does a matching row that is empty, out of range or too short for its metadata |
| EepromImage.SgBlockMissing | unit/eeprom.c:266-267 | SG: an erased row ends the index |
| EepromImage.NsgBlockFound | unit/eeprom.c:187-240 | NSG: the matching row nearest the start of the partition gives the data, above it when small and at an offset otherwise, with the version in byte 7 (EELITE) or before the data (EEFULL) |
| EepromImage.NsgBlockInvalid | unit/eeprom.c:284-290 | NSG: one matching row that does not decode fails the lookup, wherever it lies |
| EepromImage.NoPartitionAtAll | unit/eeprom.c:298-344 | without a header there is no partition |
| EepromImage.SeenByCaller | unit/eeprom.c:347-369 | what the image holds is what every report of the parser shows: verdict, each byte and version |
| EepromImage.ToldCaller | unit/eeprom.c:347-369 | an error, a missing block and a missing partition are told apart |
| EepromImage.SgRoundTrip | unit/eeprom.c:347-369 | an SG image built byte by byte around any contents and version gives them back, for both types |
| EepromImage.NsgRoundTrip | unit/eeprom.c:347-369 | so does an NSG image with its data above the row |
| SimExchange.ListenToScript | apps/sim-reader/main.c:225-248 | whatever mix of INS, complemented INS and NULL bytes a card uses, the reader ends with the data moved and SW1 SW2 |
| SimExchange.ListenedIsScript | apps/sim-reader/main.c:225-248 | conversely, any bytes on which the reader succeeds are such a script followed by a status |
| SimExchange.PacingIndependent | apps/sim-reader/main.c:225-248 | two pacings of the same data and status give the same result |
| SimExchange.AcknowledgedAtOnce | apps/sim-reader/main.c:208-249 | a card that answers with INS and, for a bare header, P3 bytes (256 for 0) is heard with exactly those and its status; with data to send, all of it goes out |
| SimExchange.NullIgnored | apps/sim-reader/main.c:200-206 | 60 in front of anything changes nothing |
| SimExchange.OneByteMoved | apps/sim-reader/main.c:232-247 | FF - INS moves one byte, in either direction |
| SimExchange.PacingIrrelevantIff | apps/sim-reader/main.c:200-248 | pacing is invisible exactly for the INS codes whose procedure bytes are not NULL |
| SimExchange.Sim.ReceiveProcedure | apps/sim-reader/main.c:200-206 | skips NULL bytes and nothing else |
| SimExchange.Sim.SendChunk | apps/sim-reader/main.c:238-247 | sends the next bytes of the TPDU in order, or a prefix of them |
| SimExchange.Sim.ReceiveChunk | apps/sim-reader/main.c:238-247 | appends the next bytes from the card to the response |
| SimExchange.Sim.ReceiveStatus | apps/sim-reader/main.c:235-236 | the status pair closes the response |
| SimExchange.Sim.ExchangeTpdu | apps/sim-reader/main.c:212-249 | bytes sent are always a prefix of the TPDU; on success the response is the data received and SW1 SW2, never over 258 bytes; success exactly when the card completes |
| CcidFraming.FrameParses | apps/sim-reader/main.c:297-318 | after any bytes without SYNC a frame is read back exactly; with any other checksum byte it is rejected, and the stream stays in step |
| CcidFraming.StreamReceived | apps/sim-reader/main.c:297-318 | any sequence of frames separated by noise is received as exactly the undamaged headers and data, in order |
| CcidFraming.ReplyLength | apps/sim-reader/main.c:334-343 | the length field of a reply announces its data |
| CcidFraming.HostReadsFrame | apps/sim-reader/sim-reader.py:32-38 | the host takes header and data of any frame and leaves what follows |
| CcidFraming.CommandLength | apps/sim-reader/sim-reader.py:41 | the length field of a command announces its data |
| CcidFraming.LrcFromZero | apps/sim-reader/sim-reader.py:43-46 | the host's checksum folded from zero is the device's checksum |
| CcidFraming.CommandServed | apps/sim-reader/sim-reader.py:40-52 | a command reaches its handler as sent, the echo is the command, the reply decodes with slot and sequence number preserved and 00 (active) or 01 (inactive), plus 40 when failed, as its status, and only a failed reply raises |
| CcidFraming.LongestCommand | apps/sim-reader/main.c:311-318 | 261 bytes of data are taken, 262 refused |
| CcidFraming.SampleBytes | apps/sim-reader/main.c:277-295 | the seventh command, a power-on, and a refusal byte by byte |
| CcidFraming.LongCommandRefused | apps/sim-reader/main.c:311-312 | a command over 261 bytes is rejected by the reader and raises on the host, whatever it holds; the reader then goes on with its data and checksum as if they were new messages |
| CcidFraming.InStepIff | apps/sim-reader/main.c:297-318 | bytes leave the reader in step, whatever follows, exactly when it works through them without a message and without a SYNC left at the end |
| CcidFraming.LongCommandSkippedIff | apps/sim-reader/main.c:298-312 | such a command leaves the reader in step, as if never sent, exactly when its data and checksum do that |
| CcidFraming.LongCommandSkipped | apps/sim-reader/main.c:298-312 | in particular it does when neither data nor checksum contains SYNC |
| CcidFraming.Host.ReadFrame | apps/sim-reader/sim-reader.py:26-38 | agrees with the frame grammar, consuming what a short read consumed |
| CcidFraming.Host.Command | apps/sim-reader/sim-reader.py:40-52 | writes one frame under the current sequence number, steps it modulo 256, and reports what the echo and reply say |
| CcidFraming.Reader.WriteFrame | apps/sim-reader/main.c:277-289 | the running checksum makes a frame of the grammar |
| CcidFraming.Reader.AwaitSync | apps/sim-reader/main.c:298-299 | skips to just after the first SYNC |
| CcidFraming.Reader.ReadFolded | apps/sim-reader/main.c:304-316 | reads exactly the bytes asked for and folds them into the checksum |
| CcidFraming.Reader.ReadMessage | apps/sim-reader/main.c:297-318 | accepts, rejects or waits exactly as the frame grammar says |
| CcidFraming.Reader.Serve | apps/sim-reader/main.c:486-493 | one turn: a rejected message is answered with NAK, an accepted one with its echo and the handler's reply |
| HostCommands.LinesAppend | boot.py:484-485 | lines and unfinished rest of a text do not depend on where it was cut |
| HostCommands.ForwardIsMeaning | boot.py:465-530 | on streams none of whose lines looks at the port when it is run, the loop over reads computes a meaning of the stream in which reads do not occur |
| HostCommands.ChunkingIndependent | boot.py:465-530 | two ways of cutting such a stream give the same success, commands, configuration and forwarded bytes |
| HostCommands.QuietNeverLooks | boot.py:487-517 | lines without EXPECT and EXPECT_RESET never look at the port, in any state whose open block does not |
| HostCommands.QuietLeads | boot.py:487-517 | quiet lines that run without an error are lines that do not look at the port, as the results below ask of what comes first |
| HostCommands.PlainLineLooks | boot.py:394-403 | outside a block a command looks at the port exactly when it is an EXPECT with bytes to wait for |
| HostCommands.LooksIffNotCalm | boot.py:502-508 | queued commands that succeed once answered look at the port exactly when one of them is such an EXPECT |
| HostCommands.DeafAll | boot.py:502-508 | commands that do not look at the port have the same effect whatever is left to read, also when an EXPECT among them cannot succeed |
| HostCommands.LookingDependsOnCuts | boot.py:465-530 | for every line that looks at the port, after any lines that do not, one stream completes under one cut and fails under another |
| HostCommands.ExpectDependsOnCuts | boot.py:394-403 | the plainest such stream: an EXPECT line at the start, its bytes in a read of their own or not |
| HostCommands.SafeLineIff | boot.py:465-530 | after any lines that do not look at the port, a line that leaves no block open keeps the outcome independent of the cuts, whatever quiet text follows, exactly when it does not look either |
| HostCommands.OpenBlockIff | boot.py:492-517 | with a block left open, the same holds exactly when its queued commands do not look at the port |
| HostCommands.SafeBlockIff | boot.py:492-517 | a block from BEGIN to END keeps the outcome independent of the cuts exactly when its commands do not look at the port |
| HostCommands.FindTerminator | boot.py:473-480 | finds the first completion byte and checks that a newline came before it, across reads |
| HostCommands.RunLinesOf | boot.py:487-517 | the loop over lines runs them in order until one fails |
| HostCommands.ForwardOutput | boot.py:465-530 | the loop with its carried variables is the recursive specification |
| HostScript.LineParses | boot.py:334-340 | name and argument are recovered from the line a command is written on |
| HostScript.ScriptForwarded | boot.py:465-530 | output lines, single commands and blocks, cut into reads in any way: the final configuration is the fold of the commands, those of a block with the configuration it began with to go back to and single ones with none; exactly these commands are logged in order, and the text is written out |
| HostScript.BlockRestores | boot.py:430-433 | a block that ends with RESTORE finishes with the configuration it began with; RESTORE outside a block fails |
| HostScript.BrokenFrameFails | boot.py:492-520 | an END too many, a BEGIN inside a block and a block without END fail, after any script and in any cut |
| HostScript.ResetAnnounced | boot.py:509-530 | EXPECT_RESET as the last line of a read ends the loop with its argument and the state reached |
| I2cWords.OnBusIsMessage | lib/i2c-v2.c:99-124 | packing into little-endian words loses nothing: the words' bytes are the message, and their sizes add up |
| I2cWords.FiveBytes | lib/i2c-v2.c:99-124 | five bytes make the words 78563412 and 9A: the first byte is the lowest |
| I2cWords.AddressAbove | lib/i2c-v1.c:151-166 | written, the address stands above a clear bit, read above a set one |
| I2cWords.FirstWords | lib/i2c-v1.c:37-46 | both drivers cut a transfer at the same places and differ in one bit of the first word at most |
| I2cWords.DriversAgree | lib/i2c-v1.c:135-154 | both drivers load identical words exactly for seven-bit addresses or when the first payload byte has its low bit set |
| I2cWords.BusBytesAgree | lib/i2c-v1.c:135-154 | the first driver's bytes are address, prefix, data exactly under that condition or without payload |
| I2cWords.DriversDiffer | lib/i2c-v1.c:135-154 | address 0x80 with the payload byte 0 gets different words and different bytes |
| I2cWords.WriteWithPecChecks | lib/i2c.c:39-43 | a written message with one more byte leaves residue zero exactly when that byte is its packet error code |
| I2cWords.SpillBreaksPec | lib/i2c.c:39-43 | through the first driver the code checks exactly when no bit has spilled: the damage is always detected |
| I2cDrivers.V1WriteCompletes | lib/i2c-v1.c:69-124 | acknowledged requests for every word followed by the end make a write succeed |
| I2cDrivers.V1ReadCompletes | lib/i2c-v1.c:69-124 | after an acknowledged address, a bus that delivers a message in words makes a read succeed with exactly that message |
| I2cDrivers.V1WriteRefused | lib/i2c-v1.c:77-118 | no acknowledge, or an early end, after k words fails a write with exactly those loaded |
| I2cDrivers.V1WriteStops | lib/i2c-v1.c:78-92 | once a request has found nothing left to send, a missing acknowledge no longer fails a write |
| I2cDrivers.V1ReadRefused | lib/i2c-v1.c:77-118 | an address that is not acknowledged, or an early end, fails a read |
| I2cDrivers.V2WriteCompletes | lib/i2c-v2.c:99-131 | a request for every word and a clean end make a write succeed |
| I2cDrivers.V2ReadCompletes | lib/i2c-v2.c:153-177 | a bus that delivers a message in words within the poll limit makes a read succeed with exactly that message |
| I2cDrivers.V2WriteRefused | lib/i2c-v2.c:99-131 | a fault instead of the k-th request, or no request within the limit, fails a write with k words loaded |
| I2cDrivers.FaultAgainstSuccess | lib/i2c-v2.c:29-55 | a request outweighs a fault while a word is awaited; a fault outweighs the end of the transfer and stops a read |
| I2cDrivers.DriverV1.ByteGet | lib/i2c-v1.c:27-35 | hands out prefix then data, each byte once |
| I2cDrivers.DriverV1.WriteBuffer | lib/i2c-v1.c:37-46 | loads the next bytes of the transfer, little-endian from the offset, with their count |
| I2cDrivers.DriverV1.WritePass | lib/i2c-v1.c:73-118 | one poll: refused acknowledge, next word, stop request and end as the flags say |
| I2cDrivers.DriverV1.WriteWait | lib/i2c-v1.c:69-124 | what is loaded is a prefix of the transfer's words, and true means all of them |
| I2cDrivers.DriverV1.HwWrite | lib/i2c-v1.c:135-154 | loads a prefix of the driver's words for address, prefix and data; true means all were loaded |
| I2cDrivers.DriverV1.ReadBuffer | lib/i2c-v1.c:48-63 | stores at most what was requested and is still wanted, in byte order |
| I2cDrivers.DriverV1.ReadWait | lib/i2c-v1.c:69-124 | stores what the polls deliver, never more than wanted |
| I2cDrivers.DriverV1.HwRead | lib/i2c-v1.c:156-169 | never stores past the buffer; true means exactly `size` bytes |
| I2cDrivers.DriverV2.RequestWait | lib/i2c-v2.c:29-41 | reports the first request or fault within the poll limit, the request first |
| I2cDrivers.DriverV2.TransferWait | lib/i2c-v2.c:43-55 | reports the first fault or end within the poll limit, the fault first |
| I2cDrivers.DriverV2.NextByte | lib/i2c-v2.c:112-117 | hands out address, prefix, data, each byte once |
| I2cDrivers.DriverV2.NextWord | lib/i2c-v2.c:107-119 | packs the next bytes of the transfer little-endian |
| I2cDrivers.DriverV2.HwWrite | lib/i2c-v2.c:86-132 | loads a prefix of the words for address, prefix and data, announces their byte count, and true means all were loaded |
| I2cDrivers.DriverV2.HwRead | lib/i2c-v2.c:134-185 | never stores past the buffer; true means exactly `size` bytes |
| I2cDrivers.SmbusWritePec | lib/i2c.c:39-43 | what a successful call has sent leaves residue zero |
| CubeRoot.OddPower | boot/fakesign.py:39-40 | an odd number raised to 2^(n-2) is 1 modulo 2^n |
| CubeRoot.InverseOfThreeCorrect | boot/fakesign.py:39 | the exponent is the inverse of three modulo 2^(n-1) |
| CubeRoot.RootIsUniqueCubeRoot | boot/fakesign.py:33-41 | for every odd target the result is below 2^n, its cube is congruent to the target, and no other residue has that cube |
| CubeRoot.RootExistsIff | boot/fakesign.py:33-41 | any target has a cube root modulo 2^n exactly when it is 0 there or the exponent of 2 in it is a multiple of three |
| CubeRoot.UniqueRootIff | boot/fakesign.py:36-37 | a target passes the check exactly when it has exactly one cube root |
| CubeRoot.EvenTargetWithRoot | boot/fakesign.py:36-37 | the condition checked is not necessary for a root: 8 is refused though 2 is one |
| CubeRoot.OddDigestHasRoot | boot/fakesign.py:50 | the test on the digest's last byte is exactly what the root computation demands |
| CubeRoot.BigEndianPlaces | boot/fakesign.py:35 | the digest is read most significant byte first |
| CubeRoot.MakeHashOdd | boot/fakesign.py:45-53 | leaves the first replacement, in the order tried, that makes the digest odd; otherwise the block is restored and none does |
| SmbusPec.DivisionStep | lib/i2c.c:5-16 | one message bit is one step of polynomial long division |
| SmbusPec.UpdateIsRemainder | lib/i2c.c:5-16 | the register after any message is a remainder of the message polynomial times x^8 |
| SmbusPec.RemainderUnique | lib/i2c.c:5-16 | such a remainder is unique |
| SmbusPec.PecIsTheRemainder | lib/i2c.c:18-25 | the code is the remainder modulo x^8 + x^2 + x + 1 over GF(2), and nothing else is |
| SmbusPec.ResidueZero | lib/i2c.c:39-43 | address, data and one more byte leave zero exactly when that byte is the code |
| SmbusPec.OneByteDetected | lib/i2c.c:5-25 | any change to a single byte of any message changes the code |
| SmbusPec.PecUpdate | lib/i2c.c:5-16 | the bit loop is one byte of the update |
| SmbusPec.PecCalculate | lib/i2c.c:18-25 | the byte loop computes the code of address and data |
| Usart.Registers.SetSpeed | lib/usart.c:32-40 | registers hold divider less one and the rounded fraction, 512 written as 0; a rate above the clock wraps the divider register; with the divider in range the rate on the line, a sixteenth of the clock over these registers, is off by less than 1/512 and one baud |
| Usart.FractionRange | lib/usart.c:34-36 | the fraction never exceeds 512 and is at least 256 while the divider is not capped |
| Usart.ErrorBound | lib/usart.c:32-40 | the resulting rate is within max / (1024 * divider) of the request unless the fraction rounds to 0 |
| Usart.Accurate | lib/usart.c:32-40 | with the divider in range the rate is off by less than 1/512 of the request |
| Usart.LineRateClose | lib/usart.c:32-40 | the same stated from the clock: the one baud is what a clock that 16 does not divide may lose |
| Usart.ExactWhenDividing | lib/usart.c:32-40 | a rate that divides the clock is met exactly |
| Usart.CappedBoundIff | lib/usart.c:34-39 | with the divider capped the bound max / (1024 * 8192) holds exactly when the fraction does not round to 0 |
| Usart.CappedBoundFails | lib/usart.c:34-39 | 1 baud from a clock just over 2^27 Hz misses the bound |
| Usart.CappedBoundHolds | lib/usart.c:34-39 | for clocks up to 2^27 Hz it always holds |
| Bytes.FromLeAppend | unit/eeprom.c:55-57 | place value: each further byte counts 256 times the one before |
| Bytes.Word16Bytes | preloader/src/lz4.c:42 | the 16-bit distance counts its second byte 256 times |
| Bytes.Le16Bytes | boot.py:291 | and is written low byte first |
| Bytes.Le32Bytes | boot.py:251 | a 32-bit word is written lowest byte first |
| Bytes.Le32RoundTrip | unit/eeprom.c:55-57 | reading a little-endian word gives back the number that was written |
| BitMath.SingleBit | preloader/src/main.c:62-65 | `n & (n - 1)` is zero exactly for powers of two |
| BitMath.LowBits | preloader/src/main.c:67-70 | masking with a power of two less one is the remainder |
| BitMath.MaskOddBits | unit/eeprom.c:260 | masking a byte with AA leaves its bits 7, 5, 3 and 1 |

## Left out

- Lz4Decoder.Decompress: the if-and-only-if covers inputs up to 2^24 bytes, and longer ones that decode to less than 2^32; beyond that a 32-bit length counter can wrap, and there only termination and staying inside the output range are stated. It also needs input and output not to overlap, which the loader guarantees.
- Loader.PreloaderWritePayload: external memory is writable whether or not a window has been set over it; the request for one that boot.py:601-646 sends first for such payloads is the separate procedure Loader.PreloaderInitExtram.
- Preloader.Device.Run: memory while a frame is still incomplete is not stated; the device stores bytes as they come.
- Preloader.Device.CmdWriteRamLz4: when the target overlaps the scratch block, decompression overwrites its own input, and only the answer, the checksum of what ends up in memory, and the untouched rest of memory are stated.
- Preloader.Device.CmdGoto: control leaves the model; cache and scratch-memory handling before the jump, and what runs next, are not modelled.
- Preloader.Device.CmdInitExtram: the memory-controller register values are not modelled, only which windows are set up.
- EepromParser.EepromFindBlockInMemory: an image is a value, so memory that changes while it is read, and block ids or sizes beyond 32 bits, do not occur.
- CubeRoot.RootIsUniqueCubeRoot: the 256-byte output encoding is left out; the modulus is 2^n for every even n from 4 on, of which the source uses n = 160.
- CubeRoot.MakeHashOdd: the digest is an arbitrary function of the block; SHA-1 is not part of this model.
- HostCommands.ForwardOutput: what a command does to the serial port, apart from EXPECT reading bytes, is a parameter that yields a new configuration or an error; time spent sending and waiting is left out, and a stream that stops is reported as waiting instead of being polled forever.
- HostScript.ScriptForwarded: scripts are free of EXPECT, for which the results on cuts above say what happens.
- EepromImage.NsgRoundTrip: the image built holds at most twelve bytes of data, so that its data row cannot be taken for an entry; EepromImage.NsgBlockFound covers every size and place and asks of the other rows only that those naming the block come later and decode.
- HostCommands.SafeLineIff: EXPECT_RESET is excluded, since what it does depends on real time and on which lines share a read; the lines before must not look at the port themselves and must run without an error.
- I2cDrivers.DriverV1.WriteWait: the source's one polling loop serves both directions; here each direction has its own copy of it. The stopwatch is the end of the script of polls.
- I2cDrivers.DriverV2.HwWrite: buffers are smaller than 2^32 bytes together; aborting a transfer and clearing status registers are left out, and the poll limit is any number.
- CcidFraming.Reader.Serve: handlers are an arbitrary function of card state and request; the power-off escape, after which nothing is served, is left out.
- SimExchange.Sim.ExchangeTpdu: waiting times, parity errors and overruns are the end of what the card sends.
- Usart.Registers.SetSpeed: rates are exact rationals, not the integers a program would print; the clock frequency is an input.
- `find_flash_size` in `unit/eeprom.c`: reads chip-select registers.
- PPS exchange, card power sequencing and power-management access in the SIM reader: hardware timing.
- Serial port discovery, ignition, timeouts, argument parsing and the rewriting of files: plumbing around the modelled code.
- `chaos-boot.py`: its peer on the phone is not in the repository as source.
- Output halves of `lib/usart.c`, startup code and exception handlers: no property beyond the ones above.
