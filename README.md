# twiboot in Dafny

twiboot is an I2C (TWI) bootloader for AVR microcontrollers, paired with a
Linux host driver that speaks its protocol.
- The bootloader (main.c) answers a byte-oriented command stream inside its
  TWI interrupt handler. Its byte counter `bcnt` selects what each byte means:
  command, memory type, address high byte, address low byte, data. On a write
  it fills a page buffer and programs a flash page or stores EEPROM bytes. On
  a read it returns the 16-byte version string, the 8-byte chip-info block,
  flash bytes or EEPROM bytes. A 25 ms timer counts down a boot timeout. The
  main loop hands over to the application as soon as `cmd` becomes
  CMD_BOOT_APPLICATION.
- The host driver (linux/twb.c) opens the bus and performs a handshake. The
  handshake switches the device to the bootloader, reads the version and
  decodes the chip-info block. The driver then reads, writes and verifies a
  whole memory in blocks: 128 bytes for reads, one page for flash writes, 16
  bytes for EEPROM writes.
- linux/chipinfo_avr.c maps a three-byte signature to a part name.

The model has three layers.
- **Device as pure functions.** Module `BootProtocol` is the bootloader as a
  transition system on a `Dev` value. `Receive`, `Transmit`, `Tick`, `Step`
  and `Run` each compute the next state.
- **Device in place.** Class `BootDevice.Device` does the same steps on
  fields and arrays: the page buffer, flash, EEPROM and the temporary page
  buffer of the self-programming unit. Every handler is proved to move
  `Model()` exactly as the matching function does.
- **Whole transactions.** Module `Transactions` lifts single bytes to whole
  bus transactions. Modules `BootTimeout` and `Roundtrip` prove properties of
  the protocol: the timeout, the meaning of each byte position, and the host's
  frames against the device.

The host driver is class `Twb.Twiboot`. Its `read`/`write` calls on the I2C
device are replaced by given outcomes: `accepts(i)` and `delivers(i, n)`,
indexed by the number of earlier transfers. Every transfer is recorded in a
ghost `log`. Module `TwbFrames` holds the frames, the block chunking, the
chip-info decoding, and the shape of the log each operation produces.
`ChipinfoAvr` is the name table and its lookup.

Target constants are those of the ATmega8 build (main.c:27-45):
- SPM_PAGESIZE = 64
- flash 8 KiB with a 512-word (1 KiB) boot section, so APP_END = 0x1C00
- E2END = 0x1FF
- the version string "TWIBOOT m8v2.0" and the signature 1E 93 07

APP_END, SPM_PAGESIZE and E2END come from the build and the part's headers,
which are not part of this model; the values above are the ATmega8's.

Where the written protocol description differs from the code, the model
follows the code:
- A flash page is programmed in the interrupt handler when its 64th data
  byte arrives (main.c:289-297). It is not deferred to the STOP condition.
  STOP changes no state (main.c:353-358).
- The chip-info block carries E2END, the last EEPROM address, in bytes 6-7
  (main.c:142-143), not the EEPROM size. The model's device sends the table
  as main.c builds it, so the host takes 0x1FF as the EEPROM size. See
  "## Findings".
- The handler never refuses a byte on the bus. Its local `ack` is ORed
  into TWCR (main.c:314), and an OR cannot clear the TWEA bit the main loop
  set (main.c:422). Every received byte is therefore acknowledged, and
  clearing `ack` has one effect: `bcnt` restarts at 0 (main.c:311-312). The
  bytes that follow are handled again from position 0, as command bytes.
- After a hand-off the main loop switches the TWI off (main.c:425-429).
  The model assumes this happens before the next byte arrives, so a
  transaction takes no bytes after `cmd` has become CMD_BOOT_APPLICATION.

One place departs from the code on purpose: the host's verify is modelled
as corrected in the second row of "## Findings" (see the
Twb.Twiboot.Verify line under "## Left out").

## Model

| member | source | states |
|---|---|---|
| Wire.BigEndian | linux/twb.c:89 | joining a high and a low byte gives the 16-bit value whose high and low bytes they are |
| Wire.SplitJoin | linux/twb.c:89 | splitting an address into the host's two header bytes and joining them big-endian gives the address back (the device's two shift-and-or steps are `BootTimeout.AddressBytes`) |
| BootProtocol.InfoTable | main.c:133 | byte k of the `info` table is character k of the version string "TWIBOOT m8v2.0" for the first 14 positions and NUL for the last two |
| BootProtocol.ChipInfoLayout | main.c:134-147 | the chip-info block is 8 bytes: the signature, the page size, then the application flash end and the EEPROM field, each big-endian |
| BootProtocol.ChipInfoTable | main.c:134-147 | every byte the device sends for chip info is the byte of main.c's table: SIGNATURE, SPM_PAGESIZE, APP_END and E2END, the last two big-endian |
| BootProtocol.PowerOn | main.c:150-151 | after reset `cmd` is CMD_WAIT, the timeout is TIMEOUT (40 ticks), the memories are as given and the state invariant holds |
| BootProtocol.PageWritten | main.c:157-181 | programming a page changes only the 64-byte page that holds `pagestart`; that page lies below APP_END, so the boot section is unchanged |
| BootProtocol.AlignedPageWrite | main.c:169-178 | from a page-aligned start the word-by-word fill (low byte first) puts the page buffer byte for byte at `[pagestart, pagestart + 64)` and leaves all other flash unchanged |
| BootProtocol.CommitPage | main.c:157-181 | write_flash_page changes only flash and `addr`; a page at or above APP_END is refused with no change at all; the boot section never changes |
| BootProtocol.Dispatch | main.c:225-309 | the byte-position switch keeps the memory sizes and never changes the boot section |
| BootProtocol.Receive | main.c:225-315 | a received data byte keeps the state invariant and never changes the boot section; whenever the handler clears `ack`, `bcnt` restarts at 0 |
| BootProtocol.Transmit | main.c:323-350 | sending a byte changes only `bcnt` (table reads) or `addr` (memory reads), never `cmd`, the timeout or a memory |
| BootProtocol.WriteStart | main.c:218-222 | SLA+W keeps the state invariant |
| BootProtocol.ReadStart | main.c:318-323 | SLA+R keeps the state invariant |
| BootProtocol.Tick | main.c:367-382 | a timer overflow keeps the state invariant |
| BootProtocol.Step | main.c:210-382 | every interrupt keeps the invariant and leaves `[APP_END, FLASH_SIZE)` unchanged |
| BootProtocol.Run | main.c:210-382 | no sequence of interrupts changes the boot section: the bootloader cannot overwrite itself |
| Transactions.Feed | main.c:311-314 | every byte is taken until a hand-off, after which none is; the invariant and the boot section are kept |
| Transactions.WriteTransaction | main.c:107-131 | a write transaction never takes more bytes than the frame holds and keeps the invariant |
| Transactions.FeedAppend | main.c:225-315 | offering two pieces one after the other is offering their concatenation |
| Transactions.Fetch | main.c:323-350 | `n` bytes sent in a row change neither a memory, nor `cmd`, nor the timeout |
| Transactions.ReadTransaction | main.c:318-350 | a read transaction of `n` bytes returns `n` bytes and changes no memory, command or timeout |
| Transactions.FetchFlash | main.c:335-337 | a flash read sends consecutive flash bytes from `addr`, with `addr` wrapping at 16 bits, and leaves `addr` advanced by `n` |
| Transactions.FetchEeprom | main.c:184-191 | an EEPROM read sends consecutive EEPROM bytes from `addr` and leaves `addr` advanced by `n` |
| Transactions.FetchVersion | main.c:325-328 | a version read cycles through the 16 bytes of `info` from position `bcnt` |
| Transactions.FetchChipInfo | main.c:330-333 | a chip-info read cycles through the 8 bytes of `chipinfo` from position `bcnt` |
| Transactions.FetchOther | main.c:343-345 | under any other command every byte read is 0xFF and nothing changes |
| Transactions.ReadTransactionData | main.c:318-350 | per command, what a whole read transaction returns: memory from `addr`, the tables from their start, or 0xFF |
| Transactions.FeedFlashData | main.c:289-297 | the data bytes that complete a page fill the buffer from position `bcnt - 4` and are all taken; the last one commits the page and restarts the counter |
| Transactions.EepromByteStep | main.c:299-302 | one EEPROM data byte is stored at `addr`, which advances by one, and the next byte is acknowledged |
| Transactions.FeedEepromData | main.c:299-302 | an EEPROM data phase stores its bytes at consecutive addresses from `addr`, takes all of them, and leaves the rest of the EEPROM unchanged |
| BootTimeout.TimeoutCountsDown | main.c:376-377 | each tick before the last only decrements the timeout |
| BootTimeout.TimeoutExpires | main.c:376-381 | a running timeout `t` sets CMD_BOOT_APPLICATION on exactly the `t`-th tick; `cmd` is unchanged before it |
| BootTimeout.CancelledTimeoutNeverBoots | main.c:376-381 | a timeout of 0 is never decremented and never forces the boot |
| BootTimeout.PowerOnBootsAfterTimeout | main.c:425 | left alone after reset the main loop exits on tick 40 and on no earlier tick |
| BootTimeout.CommandByte | main.c:228-247 | byte 0: 0x00 cancels the timeout and stays at position 0; 0x01/0x02 cancel it and move to position 1; any other byte requests the application and clears `ack`, which restarts the counter |
| BootTimeout.CommandCancelsTimeout | main.c:235-238 | after a recognised command no number of ticks forces the hand-off |
| BootTimeout.SwitchApplicationByte | main.c:251-256 | the second byte of a switch hands over if and only if it is 0x80; either way `ack` is cleared and the counter restarts |
| BootTimeout.MemoryTypeByte | main.c:258-272 | memory types 0, 1, 2 select the chip-info, flash and EEPROM commands at position 2; any higher type clears `ack`, which restarts the counter |
| BootTimeout.AddressBytes | main.c:280-285 | positions 2 and 3 assemble `addr` high byte first, whatever the command |
| BootTimeout.FlashDataByte | main.c:289-297 | a flash data byte lands at `buf[bcnt - 4]`, inside the buffer; `ack` is cleared exactly when it is the last of the page, and then the page is committed and the counter restarts |
| BootTimeout.EepromDataByte | main.c:299-302 | an EEPROM data byte is stored at `addr` and `addr` post-increments |
| BootTimeout.OtherDataByte | main.c:304-306 | data for chip info, or after any command other than flash and EEPROM writes, is refused and the counter restarts |
| BootDevice.Device.constructor | main.c:150-151 | the device starts in the PowerOn state |
| BootDevice.Device.WriteFlashPage | main.c:157-181 | the in-place erase/fill/program loop leaves the device in state `CommitPage(old state)` |
| BootDevice.Device.PageFill | main.c:172 | boot_page_fill puts the word, low byte first, into the slot of the temporary page buffer that its address selects |
| BootDevice.Device.PageWrite | main.c:178 | boot_page_write replaces the flash page at `base` with the temporary page buffer and changes nothing else |
| BootDevice.Device.WriteEepromByte | main.c:193-207 | stores the byte at `addr` (decoded modulo the EEPROM size) and post-increments `addr` |
| BootDevice.Device.ReadEepromByte | main.c:184-191 | returns the EEPROM byte at `addr` and post-increments `addr` |
| BootDevice.Device.SlaWriteReceived | main.c:218-222 | status 0x60 moves the device as `WriteStart` does |
| BootDevice.Device.DataReceived | main.c:225-315 | status 0x80 moves the device, and sets the handler's `ack`, as `Receive` does |
| BootDevice.Device.DataRequested | main.c:323-350 | status 0xB8 sends the byte, and moves the device, as `Transmit` does |
| BootDevice.Device.SlaReadReceived | main.c:318-323 | status 0xA8 restarts the counter and sends the first byte, as `ReadStart` does |
| BootDevice.Device.StopReceived | main.c:353-358 | status 0xA0/0xC0 changes no state |
| BootDevice.Device.TimerOverflow | main.c:367-382 | the timer interrupt moves the device as `Tick` does |
| BootDevice.Device.Handle | main.c:210-365 | one interrupt moves the device as `Step` does |
| BootDevice.Device.Serve | main.c:424-426 | the wait loop handles a prefix of the events, each one before any hand-off; it stops early only on a hand-off, and the state is `Run` over that prefix |
| BootDevice.Device.ServeNext | main.c:425 | one more event handled extends the run by that event, and no hand-off had happened before it |
| TwbFrames.Header | linux/twb.c:89 | a request header is four bytes: command and memory type first |
| TwbFrames.HeaderAddress | linux/twb.c:89 | the device reassembles the host's address from header bytes 2 and 3 |
| TwbFrames.WriteFrame | linux/twb.c:96-128 | a write frame is the header then the data; a flash frame is exactly `4 + pagesize` bytes padded with 0xFF, any other frame is `4 + size` bytes |
| TwbFrames.ClearBit7 | linux/twb.c:82 | `c & ~0x80` is below 0x80, and equals `c` or `c - 0x80` |
| TwbFrames.MaskVersion | linux/twb.c:80-82 | every version byte has bit 7 cleared, and the length is kept |
| TwbFrames.AlignmentTest | linux/twb.c:100 | for a power-of-two page size the mask test passes exactly for multiples of the page size |
| TwbFrames.Blocks | linux/twb.c:218-231 | the block loop visits at least one block exactly when `pos < total` |
| TwbFrames.BlocksWithin | linux/twb.c:222 | every block is non-empty, at most the block size long, and inside `[pos, total)` |
| TwbFrames.BlocksEnds | linux/twb.c:218-231 | the first block starts at `pos` and the last ends at `total` |
| TwbFrames.BlocksTile | linux/twb.c:218-231 | the blocks are contiguous and all but the last are full |
| TwbFrames.ReadBlocksCount | linux/twb.c:218-231 | a read of `total` bytes takes `ceil(total / 128)` transactions |
| TwbFrames.EepromBlocksCount | linux/twb.c:244-259 | an EEPROM write of `total` bytes takes `ceil(total / 16)` transactions |
| TwbFrames.BlocksAligned | linux/twb.c:244-259 | chunking from address 0 in pages of a power-of-two size makes every block pass twb_write_memory's alignment test |
| TwbFrames.DecodeChipInfo | linux/twb.c:205-208 | the host takes the signature from bytes 0-2, the page size from byte 3, and big-endian flash and EEPROM sizes from bytes 4-5 and 6-7 |
| TwbFrames.AttemptOutcome | linux/twb.c:87-94 | a read request succeeds exactly when it is accepted and the reply is complete; otherwise its transfers are a failure |
| TwbFrames.WriteRefusal | linux/twb.c:99-103 | a failed block write sends nothing exactly when it is a misaligned flash block |
| TwbFrames.BlocksCover | linux/twb.c:218-231 | every position in `[pos, total)` lies in one of the blocks the loop visits |
| TwbFrames.VerifyComparesPastImage | linux/twb.c:269-285 | as written, with an image shorter than the memory, some compared block contains position `length`, which is past the caller's buffer and in no block twb_write sent |
| TwbFrames.VerifyComparesWritten | linux/twb.c:240-301 | comparing `[0, length)` reads only inside the image and compares every image byte, and every compared byte lies in a block twb_write sent, whatever its block size |
| TwbFrames.ImageFramesCount | linux/twb.c:244-259 | twb_write sends one frame per block of the chunking |
| TwbFrames.ImageFrameAt | linux/twb.c:244-259 | the `i`-th frame twb_write sends is the write frame of the `i`-th block, carrying that block's bytes |
| TwbFrames.ChunkedPrefix | linux/twb.c:218-231 | the blocks a loop has visited up to `pos`, followed by the chunking from `pos`, are the whole chunking |
| Twb.Twiboot.SwitchApplication | linux/twb.c:62-67 | sends the two-byte frame; fails exactly when the frame is not transferred whole |
| Twb.Twiboot.ReadVersion | linux/twb.c:69-85 | fails on a refused request or a short reply; on success the version buffer is the reply with bit 7 cleared; after a short reply it is the reply padded with zeros |
| Twb.Twiboot.ReadMemory | linux/twb.c:87-94 | sends the read header and reads `size` bytes into the buffer at `offset`; fails exactly on refusal or a short reply; the rest of the buffer is unchanged |
| Twb.Twiboot.WriteMemory | linux/twb.c:96-128 | a misaligned flash address fails before any transfer; otherwise sends the padded frame and fails exactly when it is not transferred whole |
| Twb.Twiboot.Close | linux/twb.c:172-179 | when connected, sends the switch to the application and ignores its outcome; always returns 0 |
| Twb.Twiboot.Open | linux/twb.c:181-211 | on success the log is switch, version, chip-info read, and the device parameters are the decoded chip info; on failure they are unchanged and the last transfer is the switch back to the application |
| Twb.Twiboot.Handshake | linux/twb.c:186-208 | the three requests of twb_open in order, stopping at the first failure, which leaves the device parameters unchanged |
| Twb.Twiboot.ReadChipInfo | linux/twb.c:198-208 | reads 8 bytes of MEMTYPE_CHIPINFO at 0; on success the parameters are their decoding, on failure unchanged |
| Twb.Twiboot.Read | linux/twb.c:213-238 | success: every block of `ceil(size/128)` was read, the buffer holds the replies, length is the memory size, reports end with `(size, size)`; failure: stops at the failing block, bytes before it are in place, length unchanged, reports end with `(-1, -1)` |
| Twb.Twiboot.ReadBlocks | linux/twb.c:218-231 | the read loop visits the chunking in order, fills the buffer block by block, and stops at the first failing block |
| Twb.Twiboot.ReadNext | linux/twb.c:219-230 | one iteration reads block `(pos, min(128, size - pos))` into the buffer at `pos`, or fails |
| Twb.Twiboot.Verify | linux/twb.c:267-301 | compares the image, `[0, dbuf.length)`, and keeps the length; success: every block of the image was read back and the replies concatenate to the image; failure: the loop stopped at the first block whose read failed or whose reply differs, every earlier block matched; reports as for Read |
| Twb.Twiboot.VerifyBlocks | linux/twb.c:273-294 | the verify loop compares block by block and stops at the first failed read or mismatch |
| Twb.Twiboot.VerifyNext | linux/twb.c:274-293 | one iteration reads the block into `comp` and compares it with the expected bytes |
| Twb.Twiboot.Write | linux/twb.c:240-265 | success: one frame per block of the chunking, a page for flash and 16 bytes otherwise, each with its block's bytes; failure: stops at the failing block with its refusal as the last transfers; with a power-of-two page size no flash block fails the alignment test |
| Twb.Twiboot.WriteBlocks | linux/twb.c:244-259 | the write loop sends the blocks of the chunking in order and stops at the first failure |
| Twb.Twiboot.WriteNext | linux/twb.c:245-258 | one iteration sends block `(pos, min(chunk, length - pos))`: the log gains that block's frame, transferred, or its refusal when the write fails |
| ChipinfoAvr.GetAvrName | linux/chipinfo_avr.c:42-52 | the loop returns the name of the first table entry whose signature matches, "unknown" if none does |
| ChipinfoAvr.FirstMatchWins | linux/chipinfo_avr.c:45-48 | the first matching entry decides the name |
| ChipinfoAvr.NoMatchUnknown | linux/chipinfo_avr.c:51 | with no matching entry the name is "unknown" |
| ChipinfoAvr.ChipsDistinct | linux/chipinfo_avr.c:35-40 | no two entries of the table share a signature |
| ChipinfoAvr.UniqueMatch | linux/chipinfo_avr.c:42-52 | in a table without duplicate signatures, any matching entry's name is the result |
| ChipinfoAvr.OrderIrrelevant | linux/chipinfo_avr.c:35-40 | two orderings of the same entries without duplicates give every signature the same name |
| ChipinfoAvr.ListedChipsNamed | linux/chipinfo_avr.c:35-40 | each listed part is named by its own signature |
| ChipinfoAvr.Mega8Named | linux/chipinfo_avr.c:36 | {0x1E, 0x93, 0x07} is "AVR Mega 8" |
| ChipinfoAvr.UnlistedChipUnknown | linux/chipinfo_avr.c:51 | a signature no entry carries is "unknown" |
| Roundtrip.ChipInfoRoundTrip | linux/twb.c:205-208 | decoding the device's chip-info layout gives back the signature, page size and both 16-bit fields |
| Roundtrip.DeviceChipInfo | main.c:134-147 | the eight chip-info bytes the device sends, one per table position, are main.c's table |
| Roundtrip.DeviceChipInfoDecoded | main.c:134-147 | the host learns signature 1E 93 07, page size 64, flash size 0x1C00 and, as EEPROM size, E2END = 0x1FF |
| Roundtrip.EepromReadCoversEeprom | main.c:142-143 | with the EEPROM size E2END + 1 in bytes 6-7 instead, the host's EEPROM read starts at 0 and ends at E2END + 1 |
| Roundtrip.EepromReadMissesLastByte | main.c:142-143 | with E2END in bytes 6-7, as main.c has it, no block of the host's EEPROM read reaches address E2END |
| Roundtrip.MemoryCommand | main.c:260-267 | memory type `m` selects device command `0x10 * m + 0x12` |
| Roundtrip.HeaderSelects | linux/twb.c:89 | all four header bytes are taken; the timeout is cancelled, the memory type selects the command, and the device's `addr` is the host's address |
| Roundtrip.UnknownMemtypeRestarts | main.c:269-271 | a header with an unknown memory type takes both bytes, cancels the timeout and restarts the counter at its second byte; its address bytes are then fed from position 0 |
| Roundtrip.UnknownMemtypeHandsOver | main.c:228-247 | with an unknown memory type and an address high byte above 0x02, the third byte is read as a command and hands over to the application |
| Roundtrip.UnknownMemtypeWaits | main.c:228-247 | with an unknown memory type, an address high byte 0x00 is taken as CMD_WAIT with the counter left at 0, and a low byte that is no command then hands over: all four bytes are taken |
| Roundtrip.ReadRoundTrip | linux/twb.c:87-94 | twb_read_memory against the device returns the selected memory from the address, or the chip-info table |
| Roundtrip.OpenLearnsDevice | linux/twb.c:198-208 | twb_open's chip-info read, decoded, gives the device's signature, page size, application flash size and E2END as EEPROM size |
| Roundtrip.VersionRoundTrip | linux/twb.c:69-85 | the version request is taken, the 16 bytes read are `info`, and clearing bit 7 leaves them unchanged |
| Roundtrip.SwitchToApplication | linux/twb.c:172-179 | twb_close's switch frame is taken whole and makes the device hand over to the application |
| Roundtrip.SwitchToBootloader | linux/twb.c:186-190 | twb_open's switch frame keeps the device in the bootloader with its timeout cancelled |
| Roundtrip.FrameSplit | linux/twb.c:114-118 | a write frame is its header followed by the payload |
| Roundtrip.EepromWriteRoundTrip | linux/twb.c:96-128 | an EEPROM block write is taken whole and stores the block at its address, leaving the rest of the EEPROM and all flash unchanged |
| Roundtrip.EepromWriteThenRead | linux/twb.c:267-301 | EEPROM bytes the host wrote read back unchanged |
| Roundtrip.PaddedPage | linux/twb.c:120-122 | a flash block is padded with 0xFF to a full page |
| Roundtrip.FlashWriteRoundTrip | main.c:157-181 | a page-aligned flash block below APP_END is taken whole, programs the padded page and restarts the counter; the rest of flash and the EEPROM are unchanged |
| Roundtrip.FlashWriteThenRead | linux/twb.c:267-301 | a flash page the host wrote reads back as its padded data |
| Roundtrip.ReadBlock | linux/twb.c:87-94 | one block read from a memory that holds the image returns the image's bytes there, and the read changes no memory and causes no hand-off |
| Roundtrip.ReadBackImage | linux/twb.c:273-294 | reading back the blocks of `[pos, \|image\|)` in turn returns the image from `pos` when the memory holds it |
| Roundtrip.EepromImageWritten | linux/twb.c:240-265 | writing an EEPROM image block by block puts it at the start of the EEPROM; the rest of the EEPROM and all flash are unchanged, and the device stays in the bootloader |
| Roundtrip.FlashImageWritten | linux/twb.c:240-265 | writing a flash image of at most APP_END bytes page by page puts it at the start of flash; the EEPROM is unchanged, and the device stays in the bootloader |
| Roundtrip.EepromImageVerifies | linux/twb.c:267-301 | after twb_write of an EEPROM image, the blocks the corrected verify reads back join to the image, so verify-after-write succeeds |
| Roundtrip.FlashImageVerifies | linux/twb.c:267-301 | after twb_write of a flash image, the blocks the corrected verify reads back join to the image, so verify-after-write succeeds |
| Roundtrip.FlashWriteAboveAppEndRefused | main.c:163-164 | a flash block at or above APP_END is taken but the flash does not change |

## Left out

- Hardware set-up and hand-off (main.c:384-447) are left out because they act only on registers and the jump to the application. This covers port and timer initialisation, interrupt-vector moves, the watchdog, disabling TWI and jumping to address 0. Their end condition, `cmd == CMD_BOOT_APPLICATION`, is modelled as `Handoff`.
- The LED, TWCR and TWDR register writes are left out. The handler's `ack` local is kept as a boolean result of `Receive`.
- Status 0xF8, the illegal-state bus reset, is left out: it changes no bootloader variable.
- Interleaving of the timer and TWI interrupts is left out. Events are handled one at a time, in the order given.
- boot_page_erase is not modelled separately, because every byte of the page is programmed afterwards. The page erase, the SPM busy waits and eeprom_busy_wait are left out.
- The I2C character device, open/ioctl and memory allocation are given as parameters instead of modelled. `Open` takes `deviceOpened`, the outcome of twb_open_device. malloc in twb_write_memory is taken to succeed. Bus writes and reads come from the `accepts` and `delivers` functions.
- fprintf/perror messages are left out.
- The progress callback is modelled only through ghost `reports` results. They equal the calls made when a callback is installed, or none.
- Twb.Twiboot.Write: requires a non-zero page size for flash. With page size 0 the source loop never advances.
- Twb.Twiboot.Read: requires a buffer of at least the memory size, as twb.c assumes. Its contract states the buffer's contents up to the stopping block, not the bytes a partial reply leaves beyond it.
- Twb.Twiboot.Verify: compares `[0, dbuf->length)` and keeps `dbuf->length`, where linux/twb.c:269-299 compares `[0, memsize)` and on success sets `dbuf->length` to memsize. The as-written range is modelled only by `TwbFrames.VerifyComparesPastImage`.
- Twb.Twiboot.Verify: memcmp is modelled as equality of the reply with the slice of `dbuf.data`.
- Twb.Twiboot.Open: does not model the errno printing, and takes the device-node opening as the `deviceOpened` parameter.
- Transactions.FeedEepromData and Roundtrip.EepromWriteRoundTrip: hold only while neither the 8-bit `bcnt` nor the EEPROM address wraps. The host's 16-byte blocks never wrap. The wrapping step itself is modelled in `Receive`.
- Roundtrip.FlashWriteRoundTrip: requires the device's page size of 64 and a page-aligned address. `PageWritten` also models the rotated fill of an unaligned start, but that case has no round-trip lemma.
- The command line tool and its file loading and action queue (linux/twiboot.c), the application-side protocol (linux/multiboot.c) and the headers are not part of this model. The part name from ChipinfoAvr is therefore not connected to a caller.

## Findings

| source | as written | input that shows it | evidently intended | confidence | as-written member | corrected member |
|---|---|---|---|---|---|---|
| main.c:142-143 | chip-info bytes 6-7 hold E2END = 0x1FF, the last EEPROM address, and linux/twb.c:208 reads them as the EEPROM size | a read or verify of the whole EEPROM covers `[0, 0x1FF)`, so address 0x1FF is never read or compared | bytes 6-7 hold the EEPROM size E2END + 1 = 0x200, so that the host's whole-EEPROM loops cover every cell | not executed | Roundtrip.EepromReadMissesLastByte | Roundtrip.EepromReadCoversEeprom |
| linux/twb.c:269-285 | twb_verify compares `[0, memsize)`, memsize being the flash or EEPROM size the device reported, with `dbuf->data`; the caller (linux/twiboot.c:294-342) allocates that buffer at the file's size and checks only that the size is at most memsize | a 100-byte flash image on the ATmega8 (memsize 0x1C00): the first compared block, `[0, 128)`, reads 28 bytes past the buffer, and the later blocks compare flash that twb_write never wrote | compare the image, `[0, dbuf->length)`, which twb_write wrote and the caller allocated; a write followed by a verify then succeeds (`Roundtrip.FlashImageVerifies`, `Roundtrip.EepromImageVerifies`) | not executed | TwbFrames.VerifyComparesPastImage | Twb.Twiboot.Verify |
