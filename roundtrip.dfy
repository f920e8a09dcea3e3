/** The host driver (linux/twb.c) against the bootloader (main.c): the
    frames twb.c writes drive the device's byte-position state machine
    into the state the host expects, and what the device sends back is
    what the host reads. */
module Roundtrip {
  import opened Wire
  import opened BootProtocol
  import opened Transactions
  import opened TwbFrames

  // ---------------------------------------------------------------------
  // The chip-info block

  /** twb_open's decoding inverts the device's layout of the block. */
  lemma {:induction false} ChipInfoRoundTrip(sig: seq<byte>, pagesize: byte, flashEnd: u16, eepromField: u16)
    requires |sig| == 3
    ensures DecodeChipInfo(ChipInfoLayout(sig, pagesize, flashEnd, eepromField))
            == ChipInfo(sig, pagesize, flashEnd, eepromField)
  {
    var c := ChipInfoLayout(sig, pagesize, flashEnd, eepromField);
    var r := DecodeChipInfo(c);
    SplitJoin(r.flashsize);
    SplitJoin(r.eepromsize);
  }

  /** The eight bytes the device sends for MEMTYPE_CHIPINFO: main.c's
      table, laid out as signature, page size, APP_END and E2END. */
  function DeviceChipInfo(): (r: seq<byte>)
    ensures r == CHIPINFO
  {
    ChipInfoTable();
    [ChipInfoByte(0), ChipInfoByte(1), ChipInfoByte(2), ChipInfoByte(3),
     ChipInfoByte(4), ChipInfoByte(5), ChipInfoByte(6), ChipInfoByte(7)]
  }

  /** The host learns the device's signature, page size and usable flash,
      and takes E2END, the last EEPROM address, for the EEPROM size. */
  lemma DeviceChipInfoDecoded()
    ensures var r := DecodeChipInfo(DeviceChipInfo());
            && r.signature == SIGNATURE && r.pagesize == SPM_PAGESIZE
            && r.flashsize == APP_END && r.eepromsize == E2END
  {
    ChipInfoRoundTrip(SIGNATURE, SPM_PAGESIZE, APP_END, E2END);
  }

  /** With the EEPROM size E2END + 1 in bytes 6-7 of the table the host's
      EEPROM read covers every EEPROM address: its blocks start at 0 and
      the last one ends at E2END + 1, whatever the other fields hold. */
  lemma EepromReadCoversEeprom(sig: seq<byte>, pagesize: byte, flashEnd: u16)
    requires |sig| == 3
    ensures var size := DecodeChipInfo(ChipInfoLayout(sig, pagesize, flashEnd, EEPROM_SIZE)).eepromsize;
            var blocks := Blocks(0, size, READ_BLOCK_SIZE);
            && size == EEPROM_SIZE
            && blocks != [] && blocks[0].pos == 0
            && blocks[|blocks| - 1].pos + blocks[|blocks| - 1].len == E2END + 1
  {
    ChipInfoRoundTrip(sig, pagesize, flashEnd, EEPROM_SIZE);
    BlocksEnds(0, EEPROM_SIZE, READ_BLOCK_SIZE);
  }

  /** As main.c writes the table (CHIPINFO), bytes 6-7 carry
      E2END, which the host takes as the EEPROM size: no block of its
      EEPROM read reaches the last EEPROM address E2END. */
  lemma EepromReadMissesLastByte(sig: seq<byte>, pagesize: byte, flashEnd: u16)
    requires |sig| == 3
    ensures var size := DecodeChipInfo(ChipInfoLayout(sig, pagesize, flashEnd, E2END)).eepromsize;
            && size == E2END
            && forall b | b in Blocks(0, size, READ_BLOCK_SIZE) :: b.pos + b.len <= E2END
  {
    ChipInfoRoundTrip(sig, pagesize, flashEnd, E2END);
    BlocksWithin(0, E2END, READ_BLOCK_SIZE);
  }

  // ---------------------------------------------------------------------
  // Request headers

  /** The memory types the device accepts after CMD_WRITE_MEMORY. */
  predicate KnownMemtype(memtype: byte)
  {
    memtype == MEMTYPE_CHIPINFO || memtype == MEMTYPE_FLASH || memtype == MEMTYPE_EEPROM
  }

  /** The device command a memory type selects: 0x12, 0x22 or 0x32. */
  function MemoryCommand(memtype: byte): (r: byte)
    requires KnownMemtype(memtype)
    ensures r == memtype * 0x10 + 0x12
  {
    if memtype == MEMTYPE_CHIPINFO then CMD_WRITE_CHIPINFO
    else if memtype == MEMTYPE_FLASH then CMD_WRITE_FLASH
    else CMD_WRITE_EEPROM
  }

  /** The four header bytes of twb_read_memory and twb_write_memory are all
      taken: the timeout is cancelled, the memory type selects the command,
      and the address the host sent is the device's address. */
  lemma HeaderSelects(d: Dev, memtype: byte, address: u16)
    requires Inv(d) && !Handoff(d) && KnownMemtype(memtype)
    ensures Feed(WriteStart(d), Header(CMD_WRITE_MEMORY, memtype, address))
            == Fed(d.(cmd := MemoryCommand(memtype), bcnt := 4, addr := address, bootTimeout := 0), 4)
  {
    var h := Header(CMD_WRITE_MEMORY, memtype, address);
    var d0 := WriteStart(d);
    var d1 := d0.(bcnt := 1, bootTimeout := 0, cmd := CMD_WRITE_MEMORY);
    var d2 := d1.(bcnt := 2, cmd := MemoryCommand(memtype));
    var d3 := d2.(addr := BigEndian(Lo(d2.addr), Hi(address)), bcnt := 3);
    var d4 := d3.(addr := BigEndian(Hi(address), Lo(address)), bcnt := 4);
    SplitJoin(address);
    assert Receive(d0, h[0]) == Received(d1, true);
    assert Receive(d1, h[1]) == Received(d2, true);
    assert Receive(d2, h[2]) == Received(d3, true);
    assert Receive(d3, h[3]) == Received(d4, true);
    assert Feed(d4, h[4..]) == Fed(d4, 0);
    assert Feed(d3, h[3..]) == Fed(d4, 1);
    assert Feed(d2, h[2..]) == Fed(d4, 2);
    assert Feed(d1, h[1..]) == Fed(d4, 3);
  }

  /** Any other memory type makes the handler clear `ack` on the second
      byte, which only restarts the counter: the two address bytes that
      follow are taken and handled from byte position 0, as command bytes. */
  lemma UnknownMemtypeRestarts(d: Dev, memtype: byte, address: u16)
    requires Inv(d) && !Handoff(d) && !KnownMemtype(memtype)
    ensures var e := d.(bcnt := 0, bootTimeout := 0, cmd := CMD_WRITE_MEMORY);
            var rest := Feed(e, [Hi(address), Lo(address)]);
            WriteTransaction(d, ReadRequest(memtype, address)) == Fed(rest.dev, 2 + rest.taken)
  {
    var h := ReadRequest(memtype, address);
    var d0 := WriteStart(d);
    var d1 := d0.(bcnt := 1, bootTimeout := 0, cmd := CMD_WRITE_MEMORY);
    var e := d.(bcnt := 0, bootTimeout := 0, cmd := CMD_WRITE_MEMORY);
    assert Receive(d0, h[0]) == Received(d1, true);
    assert Receive(d1, h[1]) == Received(e, false);
    assert h[2..] == [Hi(address), Lo(address)];
    var rest := Feed(e, h[2..]);
    assert h[1..][0] == h[1] && h[1..][1..] == h[2..];
    assert Feed(d1, h[1..]) == Fed(rest.dev, rest.taken + 1);
  }

  /** So a request for an unknown memory type whose address has a high
      byte other than 0x00, 0x01 and 0x02 starts the application: that
      byte is an unknown command, and the low byte is no longer taken. */
  lemma UnknownMemtypeHandsOver(d: Dev, memtype: byte, address: u16)
    requires Inv(d) && !Handoff(d) && !KnownMemtype(memtype) && Hi(address) > 0x02
    ensures var w := WriteTransaction(d, ReadRequest(memtype, address));
            w.taken == 3 && Handoff(w.dev)
  {
    UnknownMemtypeRestarts(d, memtype, address);
    var e := d.(bcnt := 0, bootTimeout := 0, cmd := CMD_WRITE_MEMORY);
    var f := e.(cmd := CMD_BOOT_APPLICATION);
    assert Receive(e, Hi(address)) == Received(f, false);
    assert [Hi(address), Lo(address)][1..] == [Lo(address)];
    assert Feed(f, [Lo(address)]) == Fed(f, 0);
  }

  /** An address high byte 0x00 is taken as CMD_WAIT, which leaves the
      counter at 0, so the low byte is a command byte too: one other than
      CMD_WAIT, CMD_SWITCH_APPLICATION and CMD_WRITE_MEMORY starts the
      application, and all four bytes of the request are taken. */
  lemma UnknownMemtypeWaits(d: Dev, memtype: byte, address: u16)
    requires Inv(d) && !Handoff(d) && !KnownMemtype(memtype) && Hi(address) == CMD_WAIT
    requires Lo(address) != CMD_WAIT && Lo(address) != CMD_SWITCH_APPLICATION && Lo(address) != CMD_WRITE_MEMORY
    ensures var w := WriteTransaction(d, ReadRequest(memtype, address));
            w.taken == 4 && Handoff(w.dev)
  {
    UnknownMemtypeRestarts(d, memtype, address);
    var e := d.(bcnt := 0, bootTimeout := 0, cmd := CMD_WRITE_MEMORY);
    var f := e.(cmd := CMD_WAIT);
    var g := f.(cmd := CMD_BOOT_APPLICATION);
    assert Receive(e, Hi(address)) == Received(f, true);
    assert Receive(f, Lo(address)) == Received(g, false);
    assert [Hi(address), Lo(address)][1..] == [Lo(address)];
    assert Feed(g, []) == Fed(g, 0);
    assert Feed(f, [Lo(address)]) == Fed(g, 1);
  }

  // ---------------------------------------------------------------------
  // Reads

  /** twb_read_memory against the device: after the request (and the STOP
      that ends it, which changes nothing) a read of `n` bytes returns the
      selected memory from `address` on, wrapping as the device's 16-bit
      address and memory decoders do, or the chip-info table. */
  lemma ReadRoundTrip(d: Dev, memtype: byte, address: u16, n: nat)
    requires Inv(d) && !Handoff(d) && KnownMemtype(memtype)
    ensures var w := WriteTransaction(d, ReadRequest(memtype, address));
            var r := ReadTransaction(w.dev, n);
            && w.taken == 4 && w.dev.bootTimeout == 0
            && (memtype == MEMTYPE_FLASH ==>
                  forall i | 0 <= i < n :: r.data[i] == d.flash[Trunc16(address + i) % 0x2000])
            && (memtype == MEMTYPE_EEPROM ==>
                  forall i | 0 <= i < n :: r.data[i] == d.eeprom[Trunc16(address + i) % 0x200])
            && (memtype == MEMTYPE_CHIPINFO ==> forall i | 0 <= i < n :: r.data[i] == ChipInfoByte(i % 8))
  {
    HeaderSelects(d, memtype, address);
    var e := d.(cmd := MemoryCommand(memtype), bcnt := 4, addr := address, bootTimeout := 0);
    ReadTransactionData(e, n);
  }

  /** Eight bytes read from the start of the chip-info table are the table. */
  lemma ChipInfoBytesRead(data: seq<byte>)
    requires |data| == 8 && forall i | 0 <= i < 8 :: data[i] == ChipInfoByte(i % 8)
    ensures data == CHIPINFO
  {
    ChipInfoTable();
    assert data[0] == ChipInfoByte(0 % 8) == 0x1E && data[1] == ChipInfoByte(1 % 8) == 0x93;
    assert data[2] == ChipInfoByte(2 % 8) == 0x07 && data[3] == ChipInfoByte(3 % 8) == 0x40;
    assert data[4] == ChipInfoByte(4 % 8) == 0x1C && data[5] == ChipInfoByte(5 % 8) == 0x00;
    assert data[6] == ChipInfoByte(6 % 8) == 0x01 && data[7] == ChipInfoByte(7 % 8) == 0xFF;
  }

  /** twb_open's chip-info read, decoded, tells the host the device's
      signature, page size and application flash size, and E2END as the
      EEPROM size. */
  lemma OpenLearnsDevice(d: Dev)
    requires Inv(d) && !Handoff(d)
    ensures var w := WriteTransaction(d, ReadRequest(MEMTYPE_CHIPINFO, 0));
            DecodeChipInfo(ReadTransaction(w.dev, 8).data) == ChipInfo(SIGNATURE, SPM_PAGESIZE, APP_END, E2END)
  {
    HeaderSelects(d, MEMTYPE_CHIPINFO, 0);
    var e := d.(cmd := CMD_READ_CHIPINFO, bcnt := 4, addr := 0, bootTimeout := 0);
    assert WriteTransaction(d, ReadRequest(MEMTYPE_CHIPINFO, 0)).dev == e;
    ChipInfoReply(e);
    ChipInfoRoundTrip(SIGNATURE, SPM_PAGESIZE, APP_END, E2END);
  }

  /** A read of eight bytes once the chip-info table is selected returns
      main.c's table. */
  lemma ChipInfoReply(e: Dev)
    requires Inv(e) && !Handoff(e) && e.cmd == CMD_READ_CHIPINFO
    ensures ReadTransaction(e, 8).data == CHIPINFO
  {
    ReadTransactionData(e, 8);
    ChipInfoBytesRead(ReadTransaction(e, 8).data);
  }

  /** twb_read_version against the device: the command byte is taken and
      cancels the timeout, the 16 bytes read are the version string, and
      masking bit 7 leaves them unchanged. */
  lemma VersionRoundTrip(d: Dev)
    requires Inv(d) && !Handoff(d)
    ensures var w := WriteTransaction(d, [CMD_READ_VERSION]);
            var r := ReadTransaction(w.dev, 16);
            && w.taken == 1 && w.dev.bootTimeout == 0
            && (forall i | 0 <= i < 16 :: r.data[i] == InfoByte(i))
            && MaskVersion(r.data) == r.data
  {
    var d0 := WriteStart(d);
    var d1 := d0.(bcnt := 1, bootTimeout := 0, cmd := CMD_READ_VERSION);
    assert Receive(d0, CMD_READ_VERSION) == Received(d1, true);
    assert [CMD_READ_VERSION][1..] == [];
    assert Feed(d1, [CMD_READ_VERSION][1..]) == Fed(d1, 0);
    assert WriteTransaction(d, [CMD_READ_VERSION]) == Fed(d1, 1);
    ReadTransactionData(d1, 16);
    var r := ReadTransaction(d1, 16);
    forall i | 0 <= i < 16
      ensures r.data[i] == InfoByte(i) && r.data[i] < 0x80
    {
      assert i % 16 == i;
    }
    assert MaskVersion(r.data) == r.data;
  }

  // ---------------------------------------------------------------------
  // Switching to the application

  /** twb_switch_application with BOOTTYPE_APPLICATION: both bytes are
      taken and the main loop hands over. */
  lemma SwitchToApplication(d: Dev)
    requires Inv(d) && !Handoff(d)
    ensures var w := WriteTransaction(d, SwitchFrame(BOOTTYPE_APPLICATION));
            w.taken == 2 && Handoff(w.dev)
  {
    var f := SwitchFrame(BOOTTYPE_APPLICATION);
    var d0 := WriteStart(d);
    var d1 := d0.(bcnt := 1, bootTimeout := 0, cmd := CMD_SWITCH_APPLICATION);
    assert Receive(d0, f[0]) == Received(d1, true);
    assert Receive(d1, f[1]) == Received(d1.(cmd := CMD_BOOT_APPLICATION, bcnt := 0), false);
    assert Feed(d1, f[1..]) == Fed(d1.(cmd := CMD_BOOT_APPLICATION, bcnt := 0), 1);
  }

  /** With BOOTTYPE_BOOTLOADER both bytes are taken and the device stays in
      the bootloader with its timeout cancelled, back at byte position 0. */
  lemma SwitchToBootloader(d: Dev)
    requires Inv(d) && !Handoff(d)
    ensures var w := WriteTransaction(d, SwitchFrame(BOOTTYPE_BOOTLOADER));
            w.taken == 2 && !Handoff(w.dev) && w.dev.bootTimeout == 0 && w.dev.bcnt == 0
  {
    var f := SwitchFrame(BOOTTYPE_BOOTLOADER);
    var d0 := WriteStart(d);
    var d1 := d0.(bcnt := 1, bootTimeout := 0, cmd := CMD_SWITCH_APPLICATION);
    assert Receive(d0, f[0]) == Received(d1, true);
    assert Receive(d1, f[1]) == Received(d1.(bcnt := 0), false);
    assert Feed(d1, f[1..]) == Fed(d1.(bcnt := 0), 1);
  }

  // ---------------------------------------------------------------------
  // Writes

  /** A write frame is the header followed by its payload. */
  lemma FrameSplit(memtype: byte, address: u16, data: seq<byte>, pagesize: byte)
    requires memtype == MEMTYPE_FLASH ==> |data| <= pagesize
    ensures var f := WriteFrame(memtype, address, data, pagesize);
            f == Header(CMD_WRITE_MEMORY, memtype, address) + f[4..]
  {
    var f := WriteFrame(memtype, address, data, pagesize);
    assert f == f[..4] + f[4..];
  }

  /** twb_write_memory of an EEPROM block against the device: every byte
      is taken and the EEPROM holds the data at `address`, the rest of it
      unchanged.  The host's blocks are at most WRITE_BLOCK_SIZE bytes. */
  lemma EepromWriteRoundTrip(d: Dev, address: u16, data: seq<byte>, pagesize: byte)
    requires Inv(d) && !Handoff(d) && |data| <= WRITE_BLOCK_SIZE && address + |data| <= EEPROM_SIZE
    ensures var w := WriteTransaction(d, WriteFrame(MEMTYPE_EEPROM, address, data, pagesize));
            && w.taken == 4 + |data| && !Handoff(w.dev)
            && w.dev.eeprom == d.eeprom[..address] + data + d.eeprom[address + |data|..]
            && w.dev.flash == d.flash
  {
    var f := WriteFrame(MEMTYPE_EEPROM, address, data, pagesize);
    var h := Header(CMD_WRITE_MEMORY, MEMTYPE_EEPROM, address);
    FrameSplit(MEMTYPE_EEPROM, address, data, pagesize);
    assert f[4..] == data;
    FeedAppend(WriteStart(d), h, data);
    HeaderSelects(d, MEMTYPE_EEPROM, address);
    var e := d.(cmd := CMD_WRITE_EEPROM, bcnt := 4, addr := address, bootTimeout := 0);
    FeedEepromData(e, data);
  }

  /** An address inside a memory of `size` bytes is decoded unchanged. */
  lemma NoWrap(a: nat, size: nat)
    requires size == 0x200 || size == 0x2000
    requires a < size
    ensures Trunc16(a) % size == a
  {
  }

  /** Written EEPROM bytes read back unchanged. */
  lemma EepromWriteThenRead(d: Dev, address: u16, data: seq<byte>, pagesize: byte)
    requires Inv(d) && !Handoff(d) && |data| <= WRITE_BLOCK_SIZE && address + |data| <= EEPROM_SIZE
    ensures var w := WriteTransaction(d, WriteFrame(MEMTYPE_EEPROM, address, data, pagesize));
            var q := WriteTransaction(w.dev, ReadRequest(MEMTYPE_EEPROM, address));
            ReadTransaction(q.dev, |data|).data == data
  {
    EepromWriteRoundTrip(d, address, data, pagesize);
    var w := WriteTransaction(d, WriteFrame(MEMTYPE_EEPROM, address, data, pagesize));
    ReadRoundTrip(w.dev, MEMTYPE_EEPROM, address, |data|);
    var q := WriteTransaction(w.dev, ReadRequest(MEMTYPE_EEPROM, address));
    var r := ReadTransaction(q.dev, |data|);
    forall i | 0 <= i < |data|
      ensures r.data[i] == data[i]
    {
      NoWrap(address + i, 0x200);
      assert w.dev.eeprom[address + i] == data[i];
    }
  }

  /** The page the host sends for a flash block: the data, padded with 0xFF. */
  function PaddedPage(data: seq<byte>): (r: seq<byte>)
    requires |data| <= SPM_PAGESIZE
    ensures |r| == SPM_PAGESIZE && r[..|data|] == data
    ensures forall i | |data| <= i < SPM_PAGESIZE :: r[i] == 0xFF
  {
    data + seq(SPM_PAGESIZE - |data|, _ => 0xFF)
  }

  /** twb_write_memory of a flash block of a page-aligned address below
      APP_END, with the page size the device reported: every byte is taken,
      the last commits the page and restarts the counter, and the page holds the
      padded data while the rest of the flash is unchanged. */
  lemma FlashWriteRoundTrip(d: Dev, address: u16, data: seq<byte>)
    requires Inv(d) && !Handoff(d) && |data| <= SPM_PAGESIZE && address % 64 == 0 && address < APP_END
    ensures var w := WriteTransaction(d, WriteFrame(MEMTYPE_FLASH, address, data, SPM_PAGESIZE));
            && w.taken == 4 + SPM_PAGESIZE && w.dev.bcnt == 0 && !Handoff(w.dev)
            && w.dev.flash[address..address + SPM_PAGESIZE] == PaddedPage(data)
            && w.dev.flash[..address] == d.flash[..address]
            && w.dev.flash[address + SPM_PAGESIZE..] == d.flash[address + SPM_PAGESIZE..]
            && w.dev.eeprom == d.eeprom
  {
    var f := WriteFrame(MEMTYPE_FLASH, address, data, SPM_PAGESIZE);
    var h := Header(CMD_WRITE_MEMORY, MEMTYPE_FLASH, address);
    var page := PaddedPage(data);
    FrameSplit(MEMTYPE_FLASH, address, data, SPM_PAGESIZE);
    assert f[4..] == page;
    FeedAppend(WriteStart(d), h, page);
    HeaderSelects(d, MEMTYPE_FLASH, address);
    var e := d.(cmd := CMD_WRITE_FLASH, bcnt := 4, addr := address, bootTimeout := 0);
    FeedFlashData(e, page);
    assert e.buf[..0] + page == page;
    AlignedPageWrite(d.flash, page, address);
  }

  /** A flash page written by the host reads back as the padded data. */
  lemma FlashWriteThenRead(d: Dev, address: u16, data: seq<byte>)
    requires Inv(d) && !Handoff(d) && |data| <= SPM_PAGESIZE && address % 64 == 0 && address < APP_END
    ensures var w := WriteTransaction(d, WriteFrame(MEMTYPE_FLASH, address, data, SPM_PAGESIZE));
            var q := WriteTransaction(w.dev, ReadRequest(MEMTYPE_FLASH, address));
            ReadTransaction(q.dev, SPM_PAGESIZE).data == PaddedPage(data)
  {
    FlashWriteRoundTrip(d, address, data);
    var w := WriteTransaction(d, WriteFrame(MEMTYPE_FLASH, address, data, SPM_PAGESIZE));
    ReadRoundTrip(w.dev, MEMTYPE_FLASH, address, SPM_PAGESIZE);
    var q := WriteTransaction(w.dev, ReadRequest(MEMTYPE_FLASH, address));
    var r := ReadTransaction(q.dev, SPM_PAGESIZE);
    forall i | 0 <= i < SPM_PAGESIZE
      ensures r.data[i] == PaddedPage(data)[i]
    {
      NoWrap(address + i, 0x2000);
      assert w.dev.flash[address + i] == w.dev.flash[address..address + SPM_PAGESIZE][i];
    }
  }

  /** A flash block at or above APP_END is taken but not programmed: the
      bootloader section stays intact. */
  lemma FlashWriteAboveAppEndRefused(d: Dev, address: u16, data: seq<byte>)
    requires Inv(d) && !Handoff(d) && |data| <= SPM_PAGESIZE && address >= APP_END
    ensures var w := WriteTransaction(d, WriteFrame(MEMTYPE_FLASH, address, data, SPM_PAGESIZE));
            w.taken == 4 + SPM_PAGESIZE && w.dev.flash == d.flash
  {
    var f := WriteFrame(MEMTYPE_FLASH, address, data, SPM_PAGESIZE);
    var h := Header(CMD_WRITE_MEMORY, MEMTYPE_FLASH, address);
    var page := PaddedPage(data);
    FrameSplit(MEMTYPE_FLASH, address, data, SPM_PAGESIZE);
    assert f[4..] == page;
    FeedAppend(WriteStart(d), h, page);
    HeaderSelects(d, MEMTYPE_FLASH, address);
    var e := d.(cmd := CMD_WRITE_FLASH, bcnt := 4, addr := address, bootTimeout := 0);
    FeedFlashData(e, page);
  }

  // ---------------------------------------------------------------------
  // Whole images: twb_write followed by twb_verify

  /** The device after one write transaction for each frame, in turn. */
  function WriteAll(d: Dev, frames: seq<seq<byte>>): (r: Dev)
    requires Inv(d)
    ensures Inv(r)
    decreases |frames|
  {
    if frames == [] then d else WriteAll(WriteTransaction(d, frames[0]).dev, frames[1..])
  }

  /** The replies to twb_read_memory of each block in turn. */
  function ReadAll(d: Dev, memtype: byte, blocks: seq<Block>): seq<seq<byte>>
    requires Inv(d)
    decreases |blocks|
  {
    if blocks == [] then []
    else
      var q := WriteTransaction(d, ReadRequest(memtype, Trunc16(blocks[0].pos)));
      var r := ReadTransaction(q.dev, blocks[0].len);
      [r.data] + ReadAll(r.dev, memtype, blocks[1..])
  }

  /** The memory of type `memtype`: the flash, or else the EEPROM. */
  function Memory(d: Dev, memtype: byte): seq<byte>
  {
    if memtype == MEMTYPE_FLASH then d.flash else d.eeprom
  }

  /** The replies joined in front of the rest. */
  lemma {:induction false} JoinCons(reply: seq<byte>, replies: seq<seq<byte>>)
    ensures Join([reply] + replies) == reply + Join(replies)
    decreases |replies|
  {
    if replies != [] {
      var init := replies[..|replies| - 1];
      var last := replies[|replies| - 1];
      JoinCons(reply, init);
      assert ([reply] + replies)[..|replies|] == [reply] + init;
      assert replies == init + [last];
    }
  }

  /** One read block: the reply is the image there, and the read leaves
      the memories alone. */
  lemma ReadBlock(d: Dev, memtype: byte, image: seq<byte>, pos: nat, len: nat)
    requires Inv(d) && !Handoff(d) && (memtype == MEMTYPE_FLASH || memtype == MEMTYPE_EEPROM)
    requires pos + len <= |image| <= |Memory(d, memtype)|
    requires Memory(d, memtype)[pos..|image|] == image[pos..]
    ensures var q := WriteTransaction(d, ReadRequest(memtype, Trunc16(pos)));
            var r := ReadTransaction(q.dev, len);
            && r.data == image[pos..pos + len]
            && !Handoff(r.dev) && Memory(r.dev, memtype) == Memory(d, memtype)
  {
    assert Trunc16(pos) == pos;
    ReadRoundTrip(d, memtype, pos, len);
    HeaderSelects(d, memtype, pos);
    var r := ReadTransaction(WriteTransaction(d, ReadRequest(memtype, pos)).dev, len);
    if memtype == MEMTYPE_FLASH {
      ReadSlice(d.flash, 0x2000, image, pos, r.data);
    } else {
      ReadSlice(d.eeprom, 0x200, image, pos, r.data);
    }
  }

  /** Bytes read from a memory of `size` bytes at the (16-bit, wrapping)
      addresses from `pos` on are the image there when the memory holds it
      and the memory fits in the address space. */
  lemma ReadSlice(m: seq<byte>, size: nat, image: seq<byte>, pos: nat, data: seq<byte>)
    requires |m| == size <= 0x1_0000 && pos + |data| <= |image| <= size
    requires m[pos..|image|] == image[pos..]
    requires forall i | 0 <= i < |data| :: data[i] == m[Trunc16(pos + i) % size]
    ensures data == image[pos..pos + |data|]
  {
    forall i | 0 <= i < |data|
      ensures data[i] == image[pos + i]
    {
      assert Trunc16(pos + i) == pos + i;
      ModUnique(pos + i, size, 0, pos + i);
      assert m[pos + i] == m[pos..|image|][i];
    }
  }

  /** Reading the blocks of `[pos, |image|)` back returns the image there
      when the memory holds it. */
  lemma {:induction false} ReadBackImage(d: Dev, memtype: byte, image: seq<byte>, pos: nat)
    requires Inv(d) && !Handoff(d) && (memtype == MEMTYPE_FLASH || memtype == MEMTYPE_EEPROM)
    requires pos <= |image| <= |Memory(d, memtype)|
    requires Memory(d, memtype)[pos..|image|] == image[pos..]
    ensures Join(ReadAll(d, memtype, Blocks(pos, |image|, READ_BLOCK_SIZE))) == image[pos..]
    decreases |image| - pos
  {
    if pos < |image| {
      var len := Min(READ_BLOCK_SIZE, |image| - pos);
      var next := ReadTransaction(WriteTransaction(d, ReadRequest(memtype, Trunc16(pos))).dev, len).dev;
      ReadKeeps(d, memtype, image, pos, next);
      ReadBackImage(next, memtype, image, pos + len);
      ReadBackStep(d, memtype, image, pos, next, ReadAll(next, memtype, Blocks(pos + len, |image|, READ_BLOCK_SIZE)));
    }
  }

  /** After the first block of `[pos, |image|)` is read, the device still
      takes requests and its memory still holds the image from the next
      block on. */
  lemma ReadKeeps(d: Dev, memtype: byte, image: seq<byte>, pos: nat, next: Dev)
    requires Inv(d) && !Handoff(d) && (memtype == MEMTYPE_FLASH || memtype == MEMTYPE_EEPROM)
    requires pos < |image| <= |Memory(d, memtype)|
    requires Memory(d, memtype)[pos..|image|] == image[pos..]
    requires next == ReadTransaction(WriteTransaction(d, ReadRequest(memtype, Trunc16(pos))).dev,
                                     Min(READ_BLOCK_SIZE, |image| - pos)).dev
    ensures Inv(next) && !Handoff(next) && |Memory(next, memtype)| == |Memory(d, memtype)|
    ensures Memory(next, memtype)[pos + Min(READ_BLOCK_SIZE, |image| - pos)..|image|]
            == image[pos + Min(READ_BLOCK_SIZE, |image| - pos)..]
  {
    var len := Min(READ_BLOCK_SIZE, |image| - pos);
    ReadBlock(d, memtype, image, pos, len);
    SliceTail(Memory(d, memtype), image, pos, len);
  }

  /** The replies from `pos` on: the first block's reply followed by the
      replies from the next block, which hold the rest of the image. */
  lemma ReadBackStep(d: Dev, memtype: byte, image: seq<byte>, pos: nat, next: Dev, tail: seq<seq<byte>>)
    requires Inv(d) && !Handoff(d) && (memtype == MEMTYPE_FLASH || memtype == MEMTYPE_EEPROM)
    requires pos < |image| <= |Memory(d, memtype)|
    requires Memory(d, memtype)[pos..|image|] == image[pos..]
    requires var len := Min(READ_BLOCK_SIZE, |image| - pos);
             && next == ReadTransaction(WriteTransaction(d, ReadRequest(memtype, Trunc16(pos))).dev, len).dev
             && tail == ReadAll(next, memtype, Blocks(pos + len, |image|, READ_BLOCK_SIZE))
             && Join(tail) == image[pos + len..]
    ensures Join(ReadAll(d, memtype, Blocks(pos, |image|, READ_BLOCK_SIZE))) == image[pos..]
  {
    var len := Min(READ_BLOCK_SIZE, |image| - pos);
    ReadStep(d, memtype, image, pos);
    var r := ReadTransaction(WriteTransaction(d, ReadRequest(memtype, Trunc16(pos))).dev, len);
    JoinStep(r.data, tail, image, pos);
  }

  /** The first block of `[pos, |image|)` read back: its reply is the image
      there, the rest of the replies are those of the rest of the blocks,
      and the memory still holds the image. */
  lemma ReadStep(d: Dev, memtype: byte, image: seq<byte>, pos: nat)
    requires Inv(d) && !Handoff(d) && (memtype == MEMTYPE_FLASH || memtype == MEMTYPE_EEPROM)
    requires pos < |image| <= |Memory(d, memtype)|
    requires Memory(d, memtype)[pos..|image|] == image[pos..]
    ensures var len := Min(READ_BLOCK_SIZE, |image| - pos);
            var r := ReadTransaction(WriteTransaction(d, ReadRequest(memtype, Trunc16(pos))).dev, len);
            && r.data == image[pos..pos + len]
            && !Handoff(r.dev) && |Memory(r.dev, memtype)| == |Memory(d, memtype)|
            && Memory(r.dev, memtype)[pos + len..|image|] == image[pos + len..]
            && ReadAll(d, memtype, Blocks(pos, |image|, READ_BLOCK_SIZE))
               == [r.data] + ReadAll(r.dev, memtype, Blocks(pos + len, |image|, READ_BLOCK_SIZE))
  {
    var len := Min(READ_BLOCK_SIZE, |image| - pos);
    var bs := Blocks(pos, |image|, READ_BLOCK_SIZE);
    BlocksStep(pos, |image|, READ_BLOCK_SIZE);
    ReadBlock(d, memtype, image, pos, len);
    SliceTail(Memory(d, memtype), image, pos, len);
  }

  /** A memory that holds the image from `pos` holds it from `pos + len`. */
  lemma SliceTail(m: seq<byte>, image: seq<byte>, pos: nat, len: nat)
    requires pos + len <= |image| <= |m| && m[pos..|image|] == image[pos..]
    ensures m[pos + len..|image|] == image[pos + len..]
  {
    assert m[pos + len..|image|] == m[pos..|image|][len..];
  }

  /** A first reply holding the image at `pos`, joined in front of replies
      holding the rest, holds the image from `pos`. */
  lemma JoinStep(first: seq<byte>, rest: seq<seq<byte>>, image: seq<byte>, pos: nat)
    requires pos + |first| <= |image| && first == image[pos..pos + |first|]
    requires Join(rest) == image[pos + |first|..]
    ensures Join([first] + rest) == image[pos..]
  {
    JoinCons(first, rest);
    assert image[pos..] == image[pos..pos + |first|] + image[pos + |first|..];
  }

  /** One EEPROM block of an image: the first frame stores it, and the rest
      of the frames are those of the rest of the image. */
  lemma EepromImageStep(d: Dev, data: seq<byte>, pos: nat, pagesize: byte)
    requires Inv(d) && !Handoff(d) && pos < |data| <= EEPROM_SIZE
    ensures var len := Min(WRITE_BLOCK_SIZE, |data| - pos);
            var fs := ImageFrames(MEMTYPE_EEPROM, data, pos, WRITE_BLOCK_SIZE, pagesize);
            var w := WriteTransaction(d, fs[0]).dev;
            && fs[1..] == ImageFrames(MEMTYPE_EEPROM, data, pos + len, WRITE_BLOCK_SIZE, pagesize)
            && !Handoff(w) && w.flash == d.flash
            && w.eeprom[..pos + len] == d.eeprom[..pos] + data[pos..pos + len]
            && w.eeprom[pos + len..] == d.eeprom[pos + len..]
  {
    var len := Min(WRITE_BLOCK_SIZE, |data| - pos);
    var chunk := data[pos..pos + len];
    assert Trunc16(pos) == pos;
    EepromWriteRoundTrip(d, pos, chunk, pagesize);
  }

  /** twb_write of an EEPROM image of at most the EEPROM's size: the EEPROM
      holds the image from `pos` on, and nothing else changes. */
  lemma {:induction false} EepromImageWritten(d: Dev, data: seq<byte>, pos: nat, pagesize: byte)
    requires Inv(d) && !Handoff(d) && pos <= |data| <= EEPROM_SIZE
    ensures var e := WriteAll(d, ImageFrames(MEMTYPE_EEPROM, data, pos, WRITE_BLOCK_SIZE, pagesize));
            && !Handoff(e) && e.flash == d.flash
            && e.eeprom[..|data|] == d.eeprom[..pos] + data[pos..]
            && e.eeprom[|data|..] == d.eeprom[|data|..]
    decreases |data| - pos
  {
    if pos < |data| {
      var len := Min(WRITE_BLOCK_SIZE, |data| - pos);
      var fs := ImageFrames(MEMTYPE_EEPROM, data, pos, WRITE_BLOCK_SIZE, pagesize);
      EepromImageStep(d, data, pos, pagesize);
      var w := WriteTransaction(d, fs[0]).dev;
      EepromImageWritten(w, data, pos + len, pagesize);
      assert WriteAll(d, fs) == WriteAll(w, fs[1..]);
      var e := WriteAll(w, fs[1..]);
      PrefixStep(d.eeprom, w.eeprom, e.eeprom, data, pos, len);
      assert w.eeprom[|data|..] == w.eeprom[pos + len..][|data| - pos - len..];
    }
  }

  /** One flash page of an image: the first frame programs it, and the rest
      of the frames are those of the rest of the image. */
  lemma FlashImageStep(d: Dev, data: seq<byte>, pos: nat)
    requires Inv(d) && !Handoff(d) && pos < |data| <= APP_END && pos % SPM_PAGESIZE == 0
    ensures var len := Min(SPM_PAGESIZE, |data| - pos);
            var fs := ImageFrames(MEMTYPE_FLASH, data, pos, SPM_PAGESIZE, SPM_PAGESIZE);
            var w := WriteTransaction(d, fs[0]).dev;
            && fs[1..] == ImageFrames(MEMTYPE_FLASH, data, pos + len, SPM_PAGESIZE, SPM_PAGESIZE)
            && !Handoff(w) && w.eeprom == d.eeprom
            && w.flash[..pos + len] == d.flash[..pos] + data[pos..pos + len]
  {
    var len := Min(SPM_PAGESIZE, |data| - pos);
    var chunk := data[pos..pos + len];
    assert Trunc16(pos) == pos;
    FlashWriteRoundTrip(d, pos, chunk);
    var w := WriteTransaction(d, WriteFrame(MEMTYPE_FLASH, pos, chunk, SPM_PAGESIZE)).dev;
    PageHolds(w.flash, d.flash[..pos], chunk, pos);
  }

  /** A memory whose page at `pos` is the padded chunk holds, below the
      chunk's end, what it held below `pos` followed by the chunk. */
  lemma PageHolds(m: seq<byte>, below: seq<byte>, chunk: seq<byte>, pos: nat)
    requires |chunk| <= SPM_PAGESIZE && pos + SPM_PAGESIZE <= |m|
    requires m[pos..pos + SPM_PAGESIZE] == PaddedPage(chunk) && m[..pos] == below
    ensures m[..pos + |chunk|] == below + chunk
  {
    assert m[pos..pos + |chunk|] == m[pos..pos + SPM_PAGESIZE][..|chunk|];
    assert m[..pos + |chunk|] == m[..pos] + m[pos..pos + |chunk|];
  }

  /** twb_write of a flash image of at most APP_END bytes, from a page
      boundary: below `|data|` the flash holds the image from `pos` on and
      what it held below `pos`; the EEPROM is unchanged. */
  lemma {:induction false} FlashImageWritten(d: Dev, data: seq<byte>, pos: nat)
    requires Inv(d) && !Handoff(d) && pos <= |data| <= APP_END
    requires pos < |data| ==> pos % SPM_PAGESIZE == 0
    ensures var e := WriteAll(d, ImageFrames(MEMTYPE_FLASH, data, pos, SPM_PAGESIZE, SPM_PAGESIZE));
            && !Handoff(e) && e.eeprom == d.eeprom
            && e.flash[..|data|] == d.flash[..pos] + data[pos..]
    decreases |data| - pos
  {
    if pos < |data| {
      var len := Min(SPM_PAGESIZE, |data| - pos);
      var fs := ImageFrames(MEMTYPE_FLASH, data, pos, SPM_PAGESIZE, SPM_PAGESIZE);
      var w := WriteTransaction(d, fs[0]).dev;
      assert && fs[1..] == ImageFrames(MEMTYPE_FLASH, data, pos + len, SPM_PAGESIZE, SPM_PAGESIZE)
             && !Handoff(w) && w.eeprom == d.eeprom
             && w.flash[..pos + len] == d.flash[..pos] + data[pos..pos + len]
      by {
        FlashImageStep(d, data, pos);
      }
      NextPage(pos, |data|);
      FlashImageWritten(w, data, pos + len);
      assert WriteAll(d, fs) == WriteAll(w, fs[1..]);
      var e := WriteAll(w, fs[1..]);
      PrefixStep(d.flash, w.flash, e.flash, data, pos, len);
    }
  }

  /** The next block of a page-aligned chunking in pages is page-aligned
      unless it is past the end. */
  lemma NextPage(pos: nat, total: nat)
    requires pos < total && pos % SPM_PAGESIZE == 0
    ensures var next := pos + Min(SPM_PAGESIZE, total - pos);
            next <= total && (next < total ==> next % SPM_PAGESIZE == 0)
  {
  }

  /** Memory `m1` holds `data[pos..pos + len]` after the prefix of `m0`,
      and `m2` holds the rest of `data` after that prefix of `m1`: then `m2`
      holds `data[pos..]` after the prefix of `m0`. */
  lemma PrefixStep(m0: seq<byte>, m1: seq<byte>, m2: seq<byte>, data: seq<byte>, pos: nat, len: nat)
    requires pos + len <= |data| <= |m0| && |data| <= |m2|
    requires pos + len <= |m1| && m1[..pos + len] == m0[..pos] + data[pos..pos + len]
    requires m2[..|data|] == m1[..pos + len] + data[pos + len..]
    ensures m2[..|data|] == m0[..pos] + data[pos..]
  {
    assert data[pos..] == data[pos..pos + len] + data[pos + len..];
  }

  /** An EEPROM image written by twb_write reads back, block by block as
      twb_verify reads it, as the image: the corrected verify succeeds. */
  lemma EepromImageVerifies(d: Dev, data: seq<byte>, pagesize: byte)
    requires Inv(d) && !Handoff(d) && |data| <= EEPROM_SIZE
    ensures var e := WriteAll(d, ImageFrames(MEMTYPE_EEPROM, data, 0, WRITE_BLOCK_SIZE, pagesize));
            Join(ReadAll(e, MEMTYPE_EEPROM, Blocks(0, |data|, READ_BLOCK_SIZE))) == data
  {
    EepromImageWritten(d, data, 0, pagesize);
    ReadBackImage(WriteAll(d, ImageFrames(MEMTYPE_EEPROM, data, 0, WRITE_BLOCK_SIZE, pagesize)), MEMTYPE_EEPROM, data, 0);
  }

  /** A flash image written by twb_write reads back, block by block as
      twb_verify reads it, as the image: the corrected verify succeeds. */
  lemma FlashImageVerifies(d: Dev, data: seq<byte>)
    requires Inv(d) && !Handoff(d) && |data| <= APP_END
    ensures var e := WriteAll(d, ImageFrames(MEMTYPE_FLASH, data, 0, SPM_PAGESIZE, SPM_PAGESIZE));
            Join(ReadAll(e, MEMTYPE_FLASH, Blocks(0, |data|, READ_BLOCK_SIZE))) == data
  {
    FlashImageWritten(d, data, 0);
    ReadBackImage(WriteAll(d, ImageFrames(MEMTYPE_FLASH, data, 0, SPM_PAGESIZE, SPM_PAGESIZE)), MEMTYPE_FLASH, data, 0);
  }
}
