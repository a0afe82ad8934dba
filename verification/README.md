# core-v-mcu: a verified model

This project models the parts of core-v-mcu whose correctness is not visible from any single
function, and proves what they promise.

- **The A2 boot loader** (`a2_boot/`). It boots from SPI flash (`FlashBoot.dfy`), or takes a program over
  the UART as Motorola S-records (`Uart.dfy`, `UartRecords.dfy`, `UartEmptyRecords.dfy`, `UartOverrun.dfy`; format
  of Appendix C of the M68000 Family Programmer's Reference Manual) or over I2C in framed commands (`I2c.dfy`,
  `I2cTheorems.dfy`, `I2cShortFrames.dfy`), with the two serial loaders polled in turn (`Polling.dfy`). Frames carry
  the CRC of section 2 of ITU-T V.41 (`Crc.dfy`, `CrcTheorems.dfy`, over the polynomials of `Gf2.dfy`). `Hex.dfy`
  holds the hexadecimal printer and parser.
- **The ordered dictionary** of the IP tools: a circular doubly linked list with a sentinel
  (`OrderedDict.dfy`), and the conflict classes computed over a tree of IPs (`IpTree.dfy`).
- **The generators**: the pad multiplexer compiled from a pin table (`PadMux.dfy`), the C register layout
  compiled from a register table (`RegLayout.dfy`), and the byte segments packed into memory words and written
  as a dense image (`Stim.dfy`, `Decimals.dfy`).

`Words.dfy` models machine words as bit vectors with the C operators on them, `Memory.dfy` RAM and flash,
`Effects.dfy` what a serial loader does to the outside world, `Options.dfy` a value that may be missing.

Six files state what the programs do in plain numbers, from bytes, characters and rows to bytes, levels and
places, without the helper functions that a program shares with its specification: `BootMeaning.dfy`, `UartMeaning.dfy`,
`I2cMeaning.dfy`, `PadMuxMeaning.dfy`, `RegMeaning.dfy` and `StimMeaning.dfy`.
`CrcCheck.dfy` evaluates the CRC on the message whose value `crc.h` gives.

Code that works step by step is a method with its loop, and a module-level object with static state is a class;
each such method is proved against a function, and the theorems are lemmas about that function.

## Findings

Places where the code does not do what its comments, its format or its name promise. The model keeps the code
as it is.

- A sound S1, S2 or S3 record for address 0 is answered OK and not stored, and a sound S7, S8 or S9 record for
  address 0 is answered OK without a jump (`a2_boot/uartProtocol.c:212`): `UartRecords.StoredIff`,
  `UartRecords.JumpedIff`, `UartRecords.AddressZeroDropped`.
- A data record without data, such as `S1030000FC` or an empty S0, is misread: the first digit of its checksum is
  counted as data, the second and the character after the record are read as the checksum, and one character more,
  even the 'S' of the next record, is taken as its end (`a2_boot/uartProtocol.c:174-195`). Before an end of line a
  sound one is answered OK if and only if both digits of its checksum are the same:
  `UartEmptyRecords.EmptyRecordRead`, `UartEmptyRecords.EmptyRecordAcceptedIff`, `UartEmptyRecords.NextRecordLost`,
  `UartEmptyRecords.EmptyRecordRefused`.
- An S5 record, which the format allows, ends the session: its type is accepted, but no state follows its address,
  and nothing received after it has any effect (`a2_boot/uartProtocol.c:101-106`, `a2_boot/uartProtocol.c:167-170`):
  `UartMeaning.CountRecordHangs`.
- A data record whose count is less than its address and checksum take makes the number of data bytes wrap around.
  The machine then takes data for ever, and the 514th character stores past the end of the write buffer, as after
  `S100` and four address digits (`a2_boot/uartProtocol.c:143`, `a2_boot/uartProtocol.c:182`). Over any stream of
  characters this is the only way: `UartOverrun.OverrunIff`, `UartOverrun.RecordOverrunsIff`,
  `UartOverrun.CountZeroOverruns`.
- With the CRC in use and fewer than two bytes in the FIFO, `aLen - 2` wraps around in the 16-bit length parameter
  of the checksum, so the test is of 65534 or 65535 bytes from the buffer onwards and a command left over in the
  buffer can be obeyed again (`a2_boot/I2CProtocol.c:105`). The CRC guards a frame if and only if it has two bytes or
  more, or is one byte with which no header begins: `I2cShortFrames.CrcGuardsIff`, `I2cShortFrames.EmptyFrameObeyed`,
  `I2cShortFrames.OneByteFrameObeyed`.
- A header count of 2^31 or more is negative as an `int` and passes the limit of 16 areas
  (`a2_boot/main.c:110-121`): `FlashBoot.DescriptorsFitIff`, `FlashBoot.NegativeCountOverreads`. The limit holds for
  this read only: the placement and load loops run to the count in the header, so from 17 on they take what lies
  behind `memArea` for further entries (`a2_boot/main.c:130`, `a2_boot/main.c:155`).
- A section moves exactly its size, rounded up to words, if and only if its block count is exact, or is larger
  and the size is a multiple of four; any other count wraps `size` around and copies too much or stops short
  (`a2_boot/main.c:77-96`): `FlashBoot.Loader.LoadSection` with `FlashBoot.BlocksExact`,
  `FlashBoot.SurplusBlockMoves`.
- `findDataFit` returns an address even where nothing fits; it is right if and only if some gap of the
  table, before, between or after the areas, holds the data from its first aligned address on
  (`a2_boot/main.c:150-165`): `FlashBoot.Loader.FindDataFit`, `FlashBoot.RoomIff`, `FlashBoot.NoRoom`.
- `gen_stim_bin` walks its addresses in the order of their decimal spellings. Its padding loop ends if and only
  if that order is the numeric one, which fails for example on 9 and 10 (`boot_code/stim_utils.py:166-171`):
  `Decimals.WriterEndsIff`, `Decimals.NineAndTen`.
- Overlapping segments are in general neither last-writer-wins nor the same image in both widths, because the mask
  that clears a word for new bytes is as many bits wide as the word has bytes: a store to an eight-byte word clears
  its first byte only, a store to a single byte its lowest bit (`boot_code/stim_utils.py:69`). When the last writer
  wins, and when the widths agree, as conditions on the segments: `Stim.LastWriterWinsIff`, `Stim.WidthsAgreeIff`;
  a case of each failing: `Stim.WidthsDisagree`.
- A register array pushes every later register of the C struct off its offset: only the last register may be
  one (`util/ioscript.py:1283-1289`). The table `rtl/efpga/data/efpga_template_reg_defs.csv:436-446` has arrays
  before the last register: `RegLayout.OffsetsExactIff`, `RegLayout.ArrayShiftsNext`. Bit-fields are at their
  `lsb` if and only if the table lists them in descending order without overlap: `RegLayout.FieldsPlacedIff`.
  `rtl/udma/udma_camera/data/udma_camera_reg_defs.csv:69` and `rtl/udma/udma_sdio/data/udma_sdio_reg_defs.csv:17`
  list a field over the one before it: `RegLayout.CameraFieldsMisplaced`.
- Where two pins offer the same signal at the same select value, the input sees only the later row of the table
  (`util/ioscript.py:271-295`): `PadMux.InputReadsSelected`, `PadMux.InputReadsPinIff`. Both shipped tables offer
  `apbio_32` at select 0 on pads 11 and 26 (`nexys-pin-table.csv:13` and `:28`, `genesys2-pin-table.csv:13` and
  `:28`), so that pad 11 is never seen there: `PadMux.ShippedPinHidden`.

## Model

| member | source | states |
|---|---|---|
| FlashBoot.Loader.Memcpy | boot_code/boot_code.c:218-224 | for ranges that do not overlap, the destination gets the source bytes and nothing else changes |
| FlashBoot.Loader.GetMemAreas | a2_boot/main.c:108-122 | the header and the table entries arrive from flash, at most 16 of them unless the count is negative as an int, and nothing else changes |
| FlashBoot.DescriptorsFitIff | a2_boot/main.c:110-121 | the entries read stay inside the table if and only if the count is below 2^31 or its low twelve bits are at most 16 |
| FlashBoot.NegativeCountOverreads | a2_boot/main.c:110-121 | a count for which one entry too many is read |
| FlashBoot.CollidesIffMeets | a2_boot/main.c:158-159 | while some address ahead is free, the wrapping 32-bit collision test is true exactly when the two ranges share a byte |
| FlashBoot.NextCandidateRoundsUp | a2_boot/main.c:161 | adding b - 1 and masking with the complement of b - 1 rounds up to the next multiple, for every power of two b |
| FlashBoot.CandidateStep | a2_boot/main.c:155-163 | the placement loop never passes an address that fits, and stays clear of every area seen |
| FlashBoot.Loader.FindDataFit | a2_boot/main.c:150-165 | for sorted disjoint areas the result is not above any aligned address in L2 or above whose data range meets no area, and is such an address itself if and only if some gap of the table holds the data |
| FlashBoot.RoomIff | a2_boot/main.c:150-165 | an address fits if and only if some gap before, between or after the areas holds the data from its first aligned address on |
| FlashBoot.NoRoom | a2_boot/main.c:150-165 | a table of one area without such a gap, for which no address fits |
| FlashBoot.MovedTooFew | a2_boot/main.c:77-96 | with fewer blocks than the size needs, exactly the full blocks are moved, less than the size |
| FlashBoot.MovedEnough | a2_boot/main.c:77-96 | with the exact number of blocks the size rounded up to four is moved; with more, the same only for sizes that are multiples of four |
| FlashBoot.BlocksExact | a2_boot/main.c:77-96 | the block counts for which the size rounded up to four is moved, as an if and only if |
| FlashBoot.SurplusBlockMoves | a2_boot/main.c:77-96 | five bytes in two blocks move eight bytes and a whole block more |
| FlashBoot.SectionBlock | a2_boot/main.c:79-95 | block i starts at i * blockSize, within the size, so the size counter can only wrap after the last block, which ends at the size rounded up to four |
| FlashBoot.NextBlock | a2_boot/main.c:77-96 | one iteration in wrapping 32-bit arithmetic, for any block count, keeps the bytes moved and still to move at the total and both addresses in step; the needed blocks start at multiples of the block size |
| FlashBoot.Loader.LoadBlock | a2_boot/main.c:84-92 | one block arrives from flash, directly or through the staging buffer, and only the block and, on the buffered path, the buffer change |
| FlashBoot.Loader.LoadSection | a2_boot/main.c:67-97 | for any block count the loop moves exactly the total of the blocks from flash, and RAM outside that range and the staging buffer is unchanged |
| FlashBoot.LoadableMoves | a2_boot/main.c:77-96 | for an exact count, or a larger one and a size in whole words, that total is the size rounded up to four |
| FlashBoot.TableSurvives | a2_boot/main.c:127-137 | a loader structure that still holds the flash bytes decodes to the flash table and entry point |
| FlashBoot.FitIsApart | a2_boot/main.c:150-165 | data at an address that fits does not meet any area, its up to three bytes of padding included |
| FlashBoot.SectionSpares | a2_boot/main.c:130-137 | loading an area apart from the loader's data leaves the table and the block size as they were |
| FlashBoot.AreaStays | a2_boot/main.c:130-137 | loading a later area does not disturb an area already loaded |
| FlashBoot.SectionArrives | a2_boot/main.c:130-137 | after each section one more area holds its flash bytes, and the earlier ones still do |
| FlashBoot.Loader.LoadBinaryAndStart | a2_boot/main.c:124-143 | when the jump is reached every area holds its flash bytes, the table in RAM is intact, and the jump goes to the entry in flash |
| FlashBoot.Loader.BootFromRom | a2_boot/main.c:167-193 | end to end: for every valid table with a gap for the data, the data moves to the least address that fits, every area arrives, the relocated table is never overwritten, and the jump goes to the entry |
| BootMeaning.Boot | a2_boot/main.c:67-193 | in numbers: from the little-endian table at flash byte 16, of at most 16 sorted disjoint areas, every area arrives byte for byte; the 6440 bytes of the loader's data go to the least multiple of 4096, or from hyperflash of 1024, from 0x1C000000 on that is clear of all areas, with the table from byte 5128 and that block size at byte 6432; nothing else changes, and the jump goes to the word at flash byte 8 |
| CrcCcitt.Constants | a2_boot/include/crc.h:33-39 | the register constants are 0x1021, 0xFFFF and 0 |
| CrcCcitt.DivideBitsLinear | a2_boot/crc.c:115-128 | modulo-2 division is linear in the register |
| CrcCcitt.TableStep | a2_boot/crc.c:224-225 | one table lookup does the work of eight division steps, for every register and byte |
| CrcCcitt.CrcSlow | a2_boot/crc.c:94-136 | the bitwise form computes the CRC of the first nBytes bytes |
| CrcCcitt.Calculator.CrcInit | a2_boot/crc.c:155-197 | every table entry is its index followed by zeros, divided |
| CrcCcitt.Calculator.CrcFast | a2_boot/crc.c:211-233 | with an initialised table the fast form computes the same CRC, for every message and length |
| CrcTheorems.GeneratorTerms | a2_boot/include/crc.h:36 | the generator is x^16 + x^12 + x^5 + 1 |
| CrcTheorems.Quotient | a2_boot/crc.c:94-136 | the preset message times x^16 is a multiple of the generator plus the CRC |
| CrcTheorems.CrcIsRemainder | a2_boot/crc.c:94-136 | a register is the CRC of a message if and only if it is the remainder of the preset message modulo the generator |
| CrcCheck.CheckValue | a2_boot/include/crc.h:39 | the CRC of the characters 1 to 9 is the check value 0x29B1 |
| CrcTheorems.CollisionIsMultiple | a2_boot/crc.c:211-233 | two messages with one CRC differ by a multiple of the generator |
| CrcTheorems.BurstDetected | a2_boot/crc.c:211-233 | messages of equal length that differ in one burst of at most 16 bits, at any bit offset, have different CRCs |
| CrcTheorems.GeneratorIsEven | a2_boot/include/crc.h:36 | the generator has an even number of terms |
| CrcTheorems.OddErrorDetected | a2_boot/crc.c:211-233 | messages of equal length that differ in an odd number of bits have different CRCs |
| CrcTheorems.DivisionKeepsNonZero | a2_boot/crc.c:115-128 | division steps map only zero to zero |
| CrcTheorems.TrailerTest | a2_boot/I2CProtocol.c:103-115 | a big-endian trailer equals the CRC of the rest if and only if the CRC of the whole is zero |
| CrcTheorems.TrailerMatchesIffZero | a2_boot/I2CProtocol.c:103-115 | the same for a whole frame |
| CrcTheorems.CorruptionDetected | a2_boot/I2CProtocol.c:103-115 | a frame that passes, hit by one burst of at most 16 bits or an odd number of bit errors, no longer passes |
| Hex.AtohLoop | a2_boot/main.c:317-341 | the loop computes the value function: digits of either case, stopping at the first NUL or space |
| Hex.AtohReads | a2_boot/main.c:317-341 | hexadecimal text followed by the end, a NUL or a space reads as its number modulo 2^32 |
| Hex.AtohSpelled | a2_boot/main.c:317-341 | text that spells bytes reads as their big-endian number modulo 2^32 |
| Hex.DigitMeans | a2_boot/main.c:325-336 | the characters of each digit value: 48 to 57, and both cases of a letter for 10 to 15 in order |
| Hex.CaseIgnored | a2_boot/main.c:317-341 | texts that differ in the case of their letters read alike |
| Hex.TextEnds | a2_boot/main.c:323 | whatever follows the first NUL or space is not read |
| Hex.Console.DbgHex32 | a2_boot/dbg.c:57-61 | eight digits are printed, the most significant first |
| Hex.Console.DbgHex16 | a2_boot/dbg.c:51-55 | four digits are printed, the most significant first |
| Hex.Console.DbgHex8 | a2_boot/dbg.c:45-49 | two digits are printed, the most significant first |
| Hex.HexDigitsSplit | a2_boot/dbg.c:51-61 | printing m + n digits is printing the high m of them and then the low n |
| Hex.PrintedValue | a2_boot/dbg.c:35-61 | n printed digits have the value of the low 4n bits |
| Hex.PrintThenParse | a2_boot/dbg.c:35-61 | the parser returns the low 4n bits of the value printed, for up to eight digits |
| Uart.StepInBounds | a2_boot/uartProtocol.c:48-270 | every step that does not end the run keeps all buffer indices in range, and the run leaves the buffer exactly at the second digit of a byte when the write buffer is full |
| Uart.Loader.ProcessUartProtocolFrames | a2_boot/uartProtocol.c:48-270 | one poll of the seven-state machine over the static buffers is one step of the machine on values |
| Uart.Loader.AddAddressBytes | a2_boot/uartProtocol.c:159-162 | masking and shifting the address word adds its four bytes |
| Uart.MaskCutsByte | a2_boot/uartProtocol.c:159-162 | a mask of eight ones, shifted back, yields one byte of the word |
| Uart.Loader.AddDataBytes | a2_boot/uartProtocol.c:188-189 | the loop adds the bytes received, in 16-bit arithmetic |
| Uart.Loader.ConcludeRecord | a2_boot/uartProtocol.c:210-238 | the checksum decides between store or jump with OK, and NOT OK |
| UartRecords.EmptyPolls | a2_boot/uartProtocol.c:57-58 | polls without a character change nothing: only the characters received matter |
| UartRecords.CountRead | a2_boot/uartProtocol.c:134-149 | the count digits set the number of data bytes and start the sum |
| UartRecords.AddressRead | a2_boot/uartProtocol.c:150-173 | the address digits set the address and its sum, and lead to data or checksum by record type |
| UartRecords.DataRead | a2_boot/uartProtocol.c:174-196 | the data digits fill the write buffer with the data bytes and complete the sum |
| UartRecords.CrcRead | a2_boot/uartProtocol.c:197-244 | the checksum digits make the record's effects happen, exactly once |
| UartRecords.NoiseIgnored | a2_boot/uartProtocol.c:56-68 | characters other than 'S' between records change nothing |
| UartRecords.LineRead | a2_boot/uartProtocol.c:48-270 | reading the text of one record does what the whole-record decoder says, and leaves the machine idle or gone |
| UartRecords.StreamRead | a2_boot/uartProtocol.c:48-270 | reading the text of any list of records, with noise between them, performs exactly the decoder's effects in order |
| UartRecords.PollsRead | a2_boot/uartProtocol.c:48-270 | the same for any interleaving with empty polls |
| UartMeaning.EffectsMean | a2_boot/uartProtocol.c:210-238 | the decoder in numbers: with a sum of 0xFF, S1, S2 and S3 store their data at the big-endian number of two, three and four bytes, S7, S8 and S9 jump to that of four, three and two, S0 and a zero address do neither |
| UartMeaning.RecordRead | a2_boot/uartProtocol.c:48-270 | reading the characters of such a record, digits in either case: what is stored, what is answered, and where the run jumps |
| UartMeaning.CountRecordHangs | a2_boot/uartProtocol.c:101-173 | after S5 and two characters nothing received has any effect |
| UartRecords.EncodeSpells | a2_boot/uartProtocol.c:141-142 | every byte string has a hexadecimal spelling that the decoder accepts |
| UartRecords.AccumulatorFits | a2_boot/uartProtocol.c:145 | the 16-bit sum of an in-domain record is at most 255 * 255 |
| UartRecords.ChecksumDecides | a2_boot/uartProtocol.c:207-210 | the complement test is true exactly when all bytes of the record sum to 0xFF modulo 256 |
| UartRecords.CorruptionRejected | a2_boot/uartProtocol.c:186-243 | changing one address, data or checksum byte of a sound record yields NOT OK, no store, and an idle machine |
| UartRecords.StoredIff | a2_boot/uartProtocol.c:212-218 | reading a sound data record stores its data if and only if its address is not zero, and is answered OK either way |
| UartRecords.JumpedIff | a2_boot/uartProtocol.c:212-225 | reading a sound termination record ends in a jump to its address if and only if the address is not zero, and is answered OK otherwise |
| UartRecords.AddressZeroDropped | a2_boot/uartProtocol.c:212 | reading a sound record with one byte for address zero is answered OK and leaves RAM alone |
| UartEmptyRecords.EmptyRecordRead | a2_boot/uartProtocol.c:174-244 | what reading any data record without data does, for every address, checksum and character after it |
| UartEmptyRecords.TakenIs | a2_boot/main.c:317-341 | the number a digit and any character after it are read as |
| UartEmptyRecords.EmptyRecordAcceptedIff | a2_boot/uartProtocol.c:174-244 | before an end of line a sound record without data is answered OK if and only if the two digits of its checksum are the same, and RAM stays as it was |
| UartEmptyRecords.NextRecordLost | a2_boot/uartProtocol.c:245-264 | a record that follows one without data after a single character is not read |
| UartEmptyRecords.EmptyRecordRefused | a2_boot/uartProtocol.c:174-244 | S1030000FC, sound and empty, is answered NOT OK |
| UartOverrun.OverrunIff | a2_boot/uartProtocol.c:134-196 | over any stream of characters, the write buffer is overrun if and only if somewhere the data of a record begins whose count is less than its address and checksum take, and 514 characters follow |
| UartOverrun.ShortDataOverruns | a2_boot/uartProtocol.c:174-196 | such data is never complete, and its 514th character leaves the buffer |
| UartOverrun.RecordOverrunsIff | a2_boot/uartProtocol.c:134-196 | the same condition on the text of one data record followed by at most 514 characters |
| UartOverrun.CountZeroOverruns | a2_boot/uartProtocol.c:143 | S100, four address digits and any 514 characters overrun the buffer |
| I2c.Loader.ParseI2CProtocolFrame | a2_boot/I2CProtocol.c:97-147 | the program, whose checksum length is the frame's less two in 16 bits, does what the parsing function says over any memory around its buffer |
| I2c.Loader.DrainFifo | a2_boot/I2CProtocol.c:170-175 | the FIFO's bytes are put at the start of the buffer, and the rest of the buffer stays |
| I2c.Loader.ProcessI2CProtocolFrames | a2_boot/I2CProtocol.c:149-179 | one poll over the receive buffer and flags is one step of the machine on values |
| I2cTheorems.FillFrame | a2_boot/I2CProtocol.c:38-47 | header and payload are filled in place and the bytes behind them stay |
| I2cTheorems.FormI2CProtocolFrame | a2_boot/I2CProtocol.c:31-64 | the buffer holds the frame and its trailer, for payloads up to 240 bytes, and is untouched for longer ones |
| I2cTheorems.FormedFramePasses | a2_boot/I2CProtocol.c:31-64 | every frame formed with CRC on carries its payload and passes the receiver's test |
| I2cTheorems.PassesIffZero | a2_boot/I2CProtocol.c:103-115 | for at least two bytes, a frame passes in CRC mode exactly when its whole CRC is zero |
| I2cTheorems.FrameRead | a2_boot/I2CProtocol.c:97-179 | a complete frame in the FIFO has exactly the effects of its command |
| I2cTheorems.CorruptedFrameRefused | a2_boot/I2CProtocol.c:97-179 | a corrupted frame, in CRC mode, is answered as corrupted and changes nothing |
| I2cTheorems.SessionRead | a2_boot/I2CProtocol.c:149-179 | a whole session of mode switches and frames has exactly the effects of the session decoder |
| I2cTheorems.StepStores | a2_boot/I2CProtocol.c:97-179 | whatever the FIFO holds, a poll stores only what a host-headed load command that passes entitles it to: the DataLen bytes of its data at A2RamAddress |
| I2cTheorems.RunStores | a2_boot/I2CProtocol.c:97-179 | every store in the log of any run comes from one such poll |
| I2cMeaning.EffectsMean | a2_boot/I2CProtocol.c:116-147 | the frame decoder in numbers: header 07 A5, a little-endian address, 0x24 to load and 0x26 to jump, 0x31 for a good frame and 0x30 for a bad one with the CRC in use |
| I2cMeaning.PartsRead | a2_boot/I2CProtocol.c:97-179 | receiving such a frame: the data is in RAM at the address, or the run jumps there, and the answer is given |
| I2cMeaning.MessageRead | a2_boot/I2CProtocol.c:149-168 | 0x19 turns the CRC off and 0x20 on, both are answered by 0x21, every message silences the UART, and no other code does anything |
| I2cMeaning.PassesMean | a2_boot/I2CProtocol.c:103-115 | which bytes are compared for a frame of two bytes or more, of one and of none |
| I2cMeaning.EntitledMeans | a2_boot/I2CProtocol.c:116-122 | what a store of any frame, complete or not, takes its header, command, address and data from, byte by byte |
| I2cMeaning.FormedMeans | a2_boot/I2CProtocol.c:31-64 | the bytes of a frame the chip forms: 70 5A, the address field as it was, command, length, data, and the CRC high byte first or two zeros |
| I2cShortFrames.CrcGuardsIff | a2_boot/I2CProtocol.c:103-115 | with the CRC in use, a frame is obeyed only if its CRC is zero, for every buffer and surrounding memory, if and only if it has two bytes or more, or is one byte other than 0x07 |
| I2cShortFrames.EmptyFrameObeyed | a2_boot/I2CProtocol.c:105 | with nothing in the FIFO a load command left in the buffer is obeyed, for some two bytes in front of the buffer and any behind it |
| I2cShortFrames.OneByteFrameObeyed | a2_boot/I2CProtocol.c:105 | so it is with the low byte of the frame header alone in the FIFO |
| I2cShortFrames.GuardedStores | a2_boot/I2CProtocol.c:97-179 | over any run whose new frames have two bytes or more, every store made with the CRC in use is that of a frame whose CRC is zero |
| Polling.IterationKeepsInv | a2_boot/main.c:290-309 | every iteration keeps: not both loaders stopped, a live I2C loader means an idle UART machine, a loader that did anything has stopped the other |
| Polling.OneIteration | a2_boot/main.c:291-309 | the loop body, flag by flag, is the step function |
| Polling.PollingLoop | a2_boot/main.c:290-311 | the loop is the run function, for every list of inputs |
| Polling.RunAccounted | a2_boot/main.c:290-311 | over every run RAM is the start RAM with the logged stores |
| Polling.OneChannel | a2_boot/main.c:290-311 | over every run from zeroed flags: never both loaders stopped, a live I2C loader means an idle UART machine, and all stores and jumps come from one channel |
| Polling.JtagEnds | a2_boot/main.c:291-292 | a JTAG request ends the run with RAM and both logs as the iterations before it left them |
| Polling.InvitationsCount | a2_boot/main.c:300-308 | while nobody speaks there is one invitation every 90000 iterations |
| Polling.InvitationsStop | a2_boot/main.c:303-307 | once the invitations are silenced there are no more, whatever comes |
| Polling.SpokenTo | a2_boot/main.c:294-308 | an 'S' on the UART or any I2C message silences them, from the iteration that finds it |
| Polling.UartOwns | a2_boot/main.c:295-299 | once the I2C loader is stopped the run is the UART machine's run alone |
| Polling.I2cOwns | a2_boot/main.c:295-299 | once the UART loader is stopped the run is the I2C machine's run alone |
| Polling.UartSession | a2_boot/main.c:290-311 | S-records sent to the whole polling loop, after any time without an 'S' or an I2C message and whatever arrives on I2C afterwards, have exactly the decoder's effects on RAM |
| Polling.I2cSession | a2_boot/main.c:290-311 | an I2C session with the whole polling loop, after any time without an 'S' and whatever arrives on the UART afterwards, has exactly the session decoder's effects on RAM |
| OrderedDicts.LinkLast | ipstools/ipstools/ordereddict.py:44-46 | relinking puts a fresh node between the last one and the sentinel, with prev and next inverse all around |
| OrderedDicts.Unlink | ipstools/ipstools/ordereddict.py:51-53 | relinking takes one node out of the ring and keeps prev and next inverse |
| OrderedDicts.OrderedDict.Clear | ipstools/ipstools/ordereddict.py:36-40 | a fresh sentinel, no entries |
| OrderedDicts.OrderedDict.SetItem | ipstools/ipstools/ordereddict.py:42-47 | a new key goes to the end, an old key keeps its place and gets the value; list, node map and dictionary stay in step |
| OrderedDicts.OrderedDict.DelItem | ipstools/ipstools/ordereddict.py:49-53 | the key's entry leaves and the others keep their order; a missing key is reported and changes nothing |
| OrderedDicts.OrderedDict.Iter | ipstools/ipstools/ordereddict.py:55-60 | the walk along next from the sentinel gives the keys in order |
| OrderedDicts.OrderedDict.Reversed | ipstools/ipstools/ordereddict.py:62-67 | the walk along prev gives the keys in reverse |
| OrderedDicts.OrderedDict.PopItem | ipstools/ipstools/ordereddict.py:69-77 | the last or first entry is taken out and returned; an empty dictionary reports an error |
| OrderedDicts.OrderedDict.Eq | ipstools/ipstools/ordereddict.py:116-123 | two ordered dictionaries are equal exactly when they hold the same entries in the same order |
| OrderedDicts.OrderedDict.FromKeys | ipstools/ipstools/ordereddict.py:109-114 | every key of the iterable, in order of first occurrence, with the value |
| OrderedDicts.OrderedDict.Execute | ipstools/ipstools/ordereddict.py:36-77 | after any sequence of set, delete, popitem and clear the contents are those of the association list, forwards and backwards |
| OrderedDicts.RunKeepsDistinct | ipstools/ipstools/ordereddict.py:36-77 | no sequence of operations yields a key twice |
| OrderedDicts.InsertionOrder | ipstools/ipstools/ordereddict.py:36-77 | after any sequence of operations the keys stand in the order of the set operations that last inserted them |
| OrderedDicts.OperationMeans | ipstools/ipstools/ordereddict.py:42-53 | set replaces the value in place or appends, delete takes the entry out or changes nothing, by position |
| OrderedDicts.ValueIsLastSet | ipstools/ipstools/ordereddict.py:36-77 | after any sequence of operations every value is the one its key was last set to, and neither a delete of the key nor a clear came after |
| OrderedDicts.KeyCount | ipstools/ipstools/ordereddict.py:118 | the size of the dictionary is the length of the key list |
| IpTree.FlattenizeChildren | ipstools/ipstools/IPTreeNode.py:96-107 | the list is the post-order of all descendants |
| IpTree.PostOrderComplete | ipstools/ipstools/IPTreeNode.py:96-107 | the list has exactly the descendants |
| IpTree.PostOrderPaths | ipstools/ipstools/IPTreeNode.py:96-107 | by position: every node comes before the nodes above it, the nodes of an earlier sibling before those of a later one, and each position occurs once |
| IpTree.EmptyLists | ipstools/ipstools/IPTreeNode.py:117-120 | one empty list for each name, in order of first occurrence |
| IpTree.Scan | ipstools/ipstools/IPTreeNode.py:125-128 | the inner loop adds every node of the same name that is not yet listed |
| IpTree.Populate | ipstools/ipstools/IPTreeNode.py:122-128 | despite the nested appends each list has its name's nodes in post-order, without repetition |
| IpTree.MinusRepeats | ipstools/ipstools/IPTreeNode.py:137-146 | removing the noted repeats one by one leaves the first node per commit |
| IpTree.NoteRepeats | ipstools/ipstools/IPTreeNode.py:138-144 | exactly the nodes whose commit occurred before are noted |
| IpTree.Collapse | ipstools/ipstools/IPTreeNode.py:137-146 | in place removal leaves the first node of every commit, in order |
| IpTree.EvictEmpty | ipstools/ipstools/IPTreeNode.py:129-135 | only the names with an empty list go |
| IpTree.GetConflicts | ipstools/ipstools/IPTreeNode.py:109-147 | the keys are the descendant names in post-order, and each list the post-order-first node per commit |
| IpTree.FirstOfDedup | ipstools/ipstools/IPTreeNode.py:122-146 | dropping repeated nodes first does not change the first node per commit |
| IpTree.ConflictMeaning | ipstools/ipstools/IPTreeNode.py:109-147 | a node is listed under a name if and only if it has the name and no earlier descendant has both name and commit |
| IpTree.DedupInOrder | ipstools/ipstools/IPTreeNode.py:117-120 | dropping repeated members leaves each where it occurs first, in order |
| IpTree.ConflictsInOrder | ipstools/ipstools/IPTreeNode.py:109-147 | the nodes listed under a name stand in the order of the descendants, each the first of its name and commit |
| Decimals.SameLengthOrder | boot_code/stim_utils.py:166 | numbers with equally many decimal digits are ordered like their spellings |
| Decimals.LessIsTotal | boot_code/stim_utils.py:166 | the order of strings is total and irreflexive |
| Decimals.OrderMeans | boot_code/stim_utils.py:166 | a string is less than another if and only if where they first differ it has ended or has the smaller character |
| Decimals.SpellingMeans | boot_code/stim_utils.py:72 | a spelling is decimal digits without a leading zero, of the number |
| Decimals.DecimalIsInjective | boot_code/stim_utils.py:72 | different addresses have different keys |
| Decimals.SortedKeys | boot_code/stim_utils.py:166 | the keys, each once, in the order of their spellings |
| Decimals.EqualDigitsAgree | boot_code/stim_utils.py:166 | with one number of digits throughout, the two orders agree |
| Decimals.WriterEndsIff | boot_code/stim_utils.py:166-171 | every padding loop of the writer ends if and only if the two orders agree on the addresses |
| Decimals.NineAndTen | boot_code/stim_utils.py:166-171 | 9 and 10 are sorted as 10, 9, and the writer never ends on them |
| Stim.Generator.AddMemWord | boot_code/stim_utils.py:56-74 | one masked store to one word; returns how many bytes it took |
| Stim.NewWordByte | boot_code/stim_utils.py:69-70 | where the word held zeros the new bytes are there and the other bytes stay |
| Stim.DataBitsMean | boot_code/stim_utils.py:70 | the bits or-ed in are those of the little-endian number of the bytes |
| Stim.Generator.AddMem | boot_code/stim_utils.py:80-88 | the loop stores all bytes, word by word |
| Stim.Generator.LoadSegment | boot_code/stim_utils.py:115-143 | a loadable header inside an area, or with no areas, adds its bytes and then its zero tail |
| Stim.Generator.ParseBinaries | boot_code/stim_utils.py:104-143 | all headers of all files are stored in order |
| Stim.SpreadStored | boot_code/stim_utils.py:80-88 | a run of bytes stored over zeros reads back as itself, whichever words it spans, and nothing else changes |
| Stim.ImageIsUnion | boot_code/stim_utils.py:104-143 | segments that do not overlap, in any order and either width, decode to their union, zero elsewhere |
| Stim.WidthsAgree | boot_code/stim_utils.py:148-157 | the eight-byte word map and the single-byte map decode to the same image |
| Stim.SpreadBits | boot_code/stim_utils.py:56-88 | what storing a run of bytes of any length leaves at every bit, over any memory and in either width |
| Stim.DecodedBits | boot_code/stim_utils.py:104-143 | the image of any segments, overlapping or not: a bit is set if and only if some segment sets it and no later one clears it first |
| Stim.LastWriterWinsIff | boot_code/stim_utils.py:69-70 | in either width the last segment over a byte wins if and only if it sets every bit that an earlier one sets and none since clears |
| Stim.WidthsAgreeIff | boot_code/stim_utils.py:69-70 | the two widths decode a byte alike if and only if each bit above the lowest that is set at all is set by a segment after which no store to an eight-byte word begins at that byte, and the lowest is set by such a segment only if the last one sets it |
| Stim.WidthsDisagree | boot_code/stim_utils.py:69-70 | overlapping segments that the two widths decode differently, and some whose last writer loses in both |
| Stim.AddressesStored | boot_code/stim_utils.py:155-157 | with one byte a word the keys are exactly the addresses of the segments |
| Stim.Generator.WriteImage | boot_code/stim_utils.py:164-174 | the file has the bytes from the lowest to the highest address, zeros in the gaps |
| Stim.Generator.GenStimBin | boot_code/stim_utils.py:155-174 | whenever the two orders agree the writer ends with the dense image of the segments |
| Stim.FileIsUnion | boot_code/stim_utils.py:155-174 | every segment byte is in the file at its address |
| Stim.FileGapsAreZero | boot_code/stim_utils.py:168-171 | every other byte of the file is zero |
| StimMeaning.GenBinary | boot_code/stim_utils.py:104-174 | from the program headers of all files: where the headers to load do not overlap and the two orders agree, the file runs from their lowest to their highest address |
| StimMeaning.FileHolds | boot_code/stim_utils.py:104-174 | in it, byte paddr + i is byte i of the header, zero from there to its size in memory, and zero where no header has a byte; a header is loaded if its file bytes lie in an area or there are none |
| PadMux.Generator.PutEntry | util/ioscript.py:261-295 | one option column sets the cells of its pin and signal at that column and no other cell |
| PadMux.Generator.ReadPinTable | util/ioscript.py:237-295 | each output cell holds the last entry for its pin and column, each input cell the last pin for its signal and column; repeated Xilinx pins, unknown and misplaced sysio names are counted as errors |
| PadMux.TextParses | util/ioscript.py:628-640 | the emitted text, its closing parentheses included, reads back as the chain |
| PadMux.EmitChain | util/ioscript.py:628-640 | the loop emits the text of the chain, which reads back as the chain |
| PadMux.ChainHit | util/ioscript.py:630-636 | a chain has the value of its first arm whose pin selects that column |
| PadMux.Compile | util/ioscript.py:237-758 | from the pin table to the text: every assignment reads back as the chain or driver the table means |
| PadMuxMeaning.CompileModule | util/ioscript.py:237-758 | from the rows to the levels, for every state of the wires: a pad whose last sysio is an input has output and enable low, one whose last sysio is an output has enable high and no output text, any other has the output and enable of the last option at the value of its own pad_mux; a line of a bus reads the pad whose row offers it last at the pad's select value, the lowest winning, or its default |
| PadMuxMeaning.NoErrorsIff | util/ioscript.py:237-268 | no error is counted if and only if every row has a Xilinx name of its own, every sysio name is known and none stands among the options |
| PadMux.InputDefault | util/ioscript.py:637 | an input to which no pin is routed reads its default, high for peripherals and low for the others |
| PadMux.InputReadsSelected | util/ioscript.py:237-683 | for any table and any pad setting an input reads, of the pins whose own select value names the signal for them last, the one with the lowest select value |
| PadMux.InputReadsDefault | util/ioscript.py:637 | and its default when there is no such pin |
| PadMux.InputReadsPin | util/ioscript.py:622-683 | where no signal and select value stand on two pins, an input reads the pin routed to it, the lowest select value winning |
| PadMux.InputReadsPinIff | util/ioscript.py:271-295 | in any table, an input reads the one routed pin if and only if the last row that names the signal at this select value is a row of this pin |
| PadMux.PinAtIsNamedLast | util/ioscript.py:271-295 | the cell of a signal and column holds a pin if and only if the last row that names the pair is a row of that pin |
| PadMux.ShippedPinHidden | nexys-pin-table.csv:13-41 | with pad 11 alone set to apbio_32 the signal is low whatever the pad holds |
| PadMux.PadDrivesSelected | util/ioscript.py:686-758 | a pin drives what the entry selected by its own pad_mux asks for, and nothing when there is none |
| PadMux.EntryInOwnRow | util/ioscript.py:237-295 | with one row a pin, the selected entry is the one in its row |
| PadMux.BidirectionalLoop | util/ioscript.py:622-758 | a bidirectional port drives its pin exactly while enabled, and reads that pin |
| RegLayout.EmitFields | util/ioscript.py:1291-1299 | the bit-fields are emitted from the last listed to the first, with gaps |
| RegLayout.EmitRegister | util/ioscript.py:1283-1300 | padding for the gap in front, then the register |
| RegLayout.EmitStruct | util/ioscript.py:1269-1346 | the streaming loop, one register behind, emits the members of the whole table |
| RegLayout.FieldsPlacedIff | util/ioscript.py:1291-1299 | every bit-field is at its lsb with its width if and only if the fields are listed in descending order without overlap |
| RegLayout.CameraFieldsMisplaced | rtl/udma/udma_camera/data/udma_camera_reg_defs.csv:64-69 | the fields of the camera filter register: two of three end up eight bits above their lsb |
| RegLayout.OffsetsExactIff | util/ioscript.py:1283-1289 | for increasing word offsets, every register is at its offset if and only if every register but the last is a single word whose fields, with the gaps, take at most 32 bits |
| RegLayout.EndFrom | util/ioscript.py:1291-1299 | bit-fields that fit a word end where their widths and gaps add up to, and others end beyond the word |
| RegLayout.TableLaidOut | util/ioscript.py:1269-1346 | for a table in that form, with arrays only last, every register and every bit-field is where the table says |
| RegMeaning.EmitTable | util/ioscript.py:1269-1346 | from the rows to the places: every register row stands in the struct under its name and count; where the fields fit, "m:l" is at bit l with m - l + 1 bits and "+w:l" at bit l with w bits; where the registers fit too, each is at its offset; and the struct has no other register or named field |
| RegMeaning.RegistersAre | util/ioscript.py:1301-1327 | each register is the one that its row and the field rows after it describe |
| RegLayout.ArrayShiftsNext | util/ioscript.py:1283-1289 | how far a register array pushes the register after it |
| RegLayout.ReadField | util/ioscript.py:1383-1392 | regfield_read with the emitted mask and lsb reads the bits of the field |
| RegLayout.WriteField | util/ioscript.py:1393-1397 | regfield_write puts the low bits of the value into the field and leaves every other bit |
| RegLayout.FieldOperators | util/ioscript.py:1356-1397 | through the emitted layout every bit-field reads what regfield_read reads, and a regfield_write changes the written field only |

## Left out

- The hardware behind the loaders: DMA and register access, flush delays and busy waits. A flash read is a copy
  from a map of 2^24 bytes, a UART poll an optional character, an I2C poll a message register and a FIFO of at
  most 256 bytes (`rtl/apb_i2cs/rtl/FIFO_sync_256x8.v:61`) that stay as they are during one call.
- Stack switching, reset reasons, clock setup, the banner and all debug output of the loaders. A jump ends the
  run and carries its address.
- `sendI2CProtocolFrame` and `parseUartProtocolFrame`: output only, or not called on these paths.
- `boot_code/boot_code.c` repeats the flash loader; its own `memcpy` is the one modelled, and stands for the
  library function that `a2_boot` calls.
- FlashBoot.Loader.BootFromRom: for area tables that are sorted and disjoint, with at most 16 entries, 4-aligned
  addresses, exact block counts (or larger ones for sizes in whole words) and flash ranges below 2^24, and with room
  for the loader's data; other tables are outside what the loader is written for. Addresses do not wrap around 2^32
  inside one store.
- FlashBoot.Loader.LoadSection: the bytes moved in all stay below 2^32 in flash and RAM and apart from the loader's
  data, on which the loop itself depends; a flash read of no bytes, which surplus blocks make, changes nothing.
- FlashBoot.Loader.Memcpy: overlapping ranges are not covered; C leaves them undefined and the loader has none.
- UartRecords.PollsRead: record types 0, 1, 2, 3, 7, 8 and 9 with a consistent count and at least one data byte
  in data records (for those without, see `UartEmptyRecords.EmptyRecordRead`, and for S5
  `UartMeaning.CountRecordHangs`); a record too long for its count runs on.
- CrcCcitt.Reflect: `reflect` is modelled, but this configuration of the CRC does not call it.
- Uart.Loader.ProcessUartProtocolFrames: a store past the end of the write buffer ends the model's run, as C
  says nothing about what follows; `UartOverrun.OverrunIff` says when it is reached.
- I2c.Loader.ParseI2CProtocolFrame: the memory around the receive buffer, read when a frame is too short or its
  DataLen too long, is two bytes in front and as far behind as a 16-bit length reaches, all arbitrary; that part of
  it may not be readable memory is not modelled.
- Polling.PollingLoop: the two loaders share flags and RAM there, so their states are parts of one value and the
  calls are the step functions that `Uart.Loader` and `I2c.Loader` are proved against. A JTAG request ends a run.
- OrderedDicts.OrderedDict.Eq: comparison with a plain dictionary, and pickling, copying and printing, are left
  to the base class in the original and are not part of this model.
- IpTree.GetConflicts: a node is its own object number, name and commit; the ordered dictionary it fills is an
  ordered list of names with a map of lists, and `is not` compares object numbers.
- PadMux.Compile: names are numbers and entries a datatype, so parsing `apbio_3` or a default by its first
  letter is not modelled; `pad_mux` values fit the select width.
- RegLayout.EmitStruct: names and macros in the table are resolved; the masks are modelled, their text is not.
- Stim.Generator.ParseBinaries: an ELF file is a list of program headers whose file size is the length of their
  data; the slm text of the eight-byte words is not written out.
- Stim.Generator.GenStimBin: requires what `Decimals.WriterEndsIff` shows the writer needs to end.
- `boot_code/s19toboot.py`, `a2_boot/srec2verilog.py`, `util/vendor.py`, the rest of `ipstools/`, `tb/` and the
  other output formats of `util/ioscript.py`: byte shuffling, git and file plumbing, text.
