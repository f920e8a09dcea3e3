/** The host driver linux/twb.c.  The I2C character device is replaced by
    a bus whose outcomes are given: `accepts(i)` says whether the `i`-th
    transfer, if it is a write, moves its whole frame, and `delivers(i, n)`
    is what the `i`-th transfer, if it is a read of `n` bytes, delivers
    (clipped to `n`).  Every transfer is recorded in the ghost `log`, every
    call of the progress callback in a ghost result of the operation that
    makes it. */
module Twb {
  import opened Wire
  import opened TwbFrames

  /** struct databuf: an allocation and the number of bytes in use. */
  class DataBuf {
    const data: array<byte>
    var length: nat

    constructor (size: nat)
      ensures fresh(data) && data.Length == size && length == 0
    {
      data := new byte[size](_ => 0);
      length := 0;
    }
  }

  /** struct twiboot: the connection and the device parameters read by
      twb_open. */
  class Twiboot {
    const accepts: nat -> bool
    const delivers: (nat, nat) -> seq<byte>
    const hasProgress: bool
    ghost var log: seq<Transfer>
    var transfers: nat
    var connected: bool
    const version: array<byte>
    var signature: seq<byte>
    var pagesize: byte
    var flashsize: u16
    var eepromsize: u16

    ghost predicate Valid()
      reads this`transfers, this`log
    {
      transfers == |log| && version.Length == 16
    }

    /** A zeroed handle, as the command line tool prepares it. */
    constructor (accepts: nat -> bool, delivers: (nat, nat) -> seq<byte>, hasProgress: bool)
      ensures Valid() && fresh(version)
      ensures this.accepts == accepts && this.delivers == delivers && this.hasProgress == hasProgress
      ensures log == [] && !connected
      ensures signature == [0, 0, 0] && pagesize == 0 && flashsize == 0 && eepromsize == 0
    {
      this.accepts := accepts;
      this.delivers := delivers;
      this.hasProgress := hasProgress;
      log := [];
      transfers := 0;
      connected := false;
      version := new byte[16](_ => 0);
      signature := [0, 0, 0];
      pagesize := 0;
      flashsize := 0;
      eepromsize := 0;
    }

    /** The size twb_read and twb_verify cover for a memory type. */
    function MemorySize(memtype: byte): nat
      reads this`flashsize, this`eepromsize
    {
      if memtype == MEMTYPE_FLASH then flashsize else eepromsize
    }

    // -------------------------------------------------------------------
    // The bus

    /** `write(fd, frame, |frame|) == |frame|`. */
    method BusWrite(frame: seq<byte>) returns (ok: bool)
      requires Valid()
      modifies this`log, this`transfers
      ensures Valid()
      ensures ok == accepts(old(transfers))
      ensures log == old(log) + [Wrote(frame, ok)]
    {
      ok := accepts(transfers);
      log := log + [Wrote(frame, ok)];
      transfers := transfers + 1;
    }

    /** `read(fd, buffer, n)`: the bytes delivered, at most `n`. */
    method BusRead(n: nat) returns (got: seq<byte>)
      requires Valid()
      modifies this`log, this`transfers
      ensures Valid()
      ensures |got| <= n
      ensures got == Clip(delivers(old(transfers), n), n)
      ensures log == old(log) + [ReadOut(n, got)]
    {
      got := Clip(delivers(transfers, n), n);
      log := log + [ReadOut(n, got)];
      transfers := transfers + 1;
    }

    // -------------------------------------------------------------------
    // Requests

    /** twb_switch_application: one two-byte frame; fails when the frame is
        not transferred whole. */
    method SwitchApplication(application: byte) returns (failed: bool)
      requires Valid()
      modifies this`log, this`transfers
      ensures Valid()
      ensures failed == !accepts(old(transfers))
      ensures log == old(log) + [Wrote([CMD_SWITCH_APPLICATION, application], !failed)]
    {
      var ok := BusWrite(SwitchFrame(application));
      failed := !ok;
    }

    /** twb_read_version: sends CMD_READ_VERSION, reads 16 bytes into the
        zeroed version buffer and clears bit 7 of each; fails on a refused
        request or a short reply. */
    method ReadVersion() returns (result: int, ghost reply: seq<byte>)
      requires Valid()
      modifies this`log, this`transfers, version
      ensures Valid()
      ensures |reply| <= 16 && (!accepts(old(transfers)) ==> reply == [])
      ensures log == old(log) + Request([CMD_READ_VERSION], accepts(old(transfers)), 16, reply)
      ensures result == 0 || result == -1
      ensures result == 0 <==> accepts(old(transfers)) && |reply| == 16
      ensures result == 0 ==> version[..] == MaskVersion(reply)
      ensures !accepts(old(transfers)) ==> version[..] == old(version[..])
      ensures accepts(old(transfers)) && result != 0 ==> version[..] == reply + seq(16 - |reply|, _ => 0)
    {
      reply := [];
      var ok := BusWrite([CMD_READ_VERSION]);
      if !ok {
        return -1, reply;
      }
      forall i | 0 <= i < 16 {
        version[i] := 0;
      }
      var got := BusRead(16);
      reply := got;
      forall i | 0 <= i < |got| {
        version[i] := got[i];
      }
      if |got| != 16 {
        assert version[..] == got + seq(16 - |got|, _ => 0);
        return -1, reply;
      }
      var i := 0;
      while i < 16
        modifies version
        invariant 0 <= i <= 16
        invariant forall j | 0 <= j < 16 :: version[j] == if j < i then ClearBit7(got[j]) else got[j]
      {
        version[i] := ClearBit7(version[i]);
        i := i + 1;
      }
      assert version[..] == MaskVersion(got);
      return 0, reply;
    }

    /** twb_read_memory: sends a read request for `size` bytes of a memory
        at `address` and reads the reply into `buffer` at `offset`; fails on
        a refused request or a short reply. */
    method ReadMemory(buffer: array<byte>, offset: nat, size: byte, memtype: byte, address: u16)
      returns (failed: bool, ghost reply: seq<byte>)
      requires Valid() && offset + size <= buffer.Length
      modifies this`log, this`transfers, buffer
      ensures Valid()
      ensures |reply| <= size && (!accepts(old(transfers)) ==> reply == [])
      ensures log == old(log) + ReadAttempt(memtype, address, size, accepts(old(transfers)), reply)
      ensures failed <==> !accepts(old(transfers)) || |reply| != size
      ensures buffer[..offset] == old(buffer[..offset])
      ensures buffer[..offset + |reply|] == old(buffer[..offset]) + reply
      ensures buffer[offset + |reply|..] == old(buffer[offset + |reply|..])
    {
      reply := [];
      var ok := BusWrite([CMD_READ_MEMORY, memtype, Hi(address), Lo(address)]);
      if !ok {
        return true, reply;
      }
      var got := BusRead(size);
      reply := got;
      forall i | 0 <= i < |got| {
        buffer[offset + i] := got[i];
      }
      failed := |got| != size;
      assert buffer[..offset + |reply|] == old(buffer[..offset]) + reply;
    }

    /** twb_write_memory: sends a write frame; a flash address that is not
        page aligned is refused before anything is sent. */
    method WriteMemory(data: seq<byte>, memtype: byte, address: u16) returns (failed: bool)
      requires Valid() && |data| <= 0xFF
      requires memtype == MEMTYPE_FLASH ==> |data| <= pagesize
      modifies this`log, this`transfers
      ensures Valid()
      ensures memtype == MEMTYPE_FLASH && Misalignment(address, pagesize) != 0 ==> failed && log == old(log)
      ensures !(memtype == MEMTYPE_FLASH && Misalignment(address, pagesize) != 0) ==>
                failed == !accepts(old(transfers))
                && log == old(log) + [Wrote(WriteFrame(memtype, address, data, pagesize), !failed)]
    {
      var bufsize: nat;
      if memtype == MEMTYPE_FLASH {
        if Misalignment(address, pagesize) != 0 {
          return true;
        }
        bufsize := 4 + pagesize;
      } else {
        bufsize := 4 + |data|;
      }
      var cmd := new byte[bufsize];
      cmd[0], cmd[1], cmd[2], cmd[3] := CMD_WRITE_MEMORY, memtype, Hi(address), Lo(address);
      forall i | 0 <= i < |data| {
        cmd[4 + i] := data[i];
      }
      if memtype == MEMTYPE_FLASH {
        forall i | 4 + |data| <= i < bufsize {
          cmd[i] := 0xFF;
        }
      }
      assert cmd[..] == WriteFrame(memtype, address, data, pagesize);
      var ok := BusWrite(cmd[..]);
      failed := !ok;
    }

    // -------------------------------------------------------------------
    // Sessions

    /** twb_close: when connected, asks the device to start the
        application; the result of that request is ignored.  `connected`
        keeps its value, as twb_close_device leaves it. */
    method Close() returns (result: int)
      requires Valid()
      modifies this`log, this`transfers
      ensures Valid()
      ensures result == 0
      ensures old(connected) ==> log == old(log) + [Wrote(SwitchFrame(BOOTTYPE_APPLICATION), accepts(old(transfers)))]
      ensures !old(connected) ==> log == old(log)
    {
      if connected {
        var _ := SwitchApplication(BOOTTYPE_APPLICATION);
      }
      return 0;
    }

    /** twb_open, after the device node was opened (`deviceOpened`): asks
        the running application to switch to the bootloader, reads the
        version and the 8-byte chip info and decodes it.  Any failure closes
        the session again, which sends the switch to the application. */
    method Open(deviceOpened: bool) returns (result: int, ghost versionReply: seq<byte>, ghost chipReply: seq<byte>)
      requires Valid()
      modifies this`log, this`transfers, this`connected, this`signature, this`pagesize, this`flashsize,
               this`eepromsize, version
      ensures Valid()
      ensures result == 0 || result == -1
      ensures !deviceOpened ==> result == -1 && log == old(log) && connected == old(connected)
      ensures deviceOpened ==> connected && |old(log)| < |log| && log[|old(log)|] == Wrote(SwitchFrame(BOOTTYPE_BOOTLOADER), accepts(old(transfers)))
      ensures result == 0 ==>
                && log == old(log) + [Wrote(SwitchFrame(BOOTTYPE_BOOTLOADER), true), Wrote([CMD_READ_VERSION], true), ReadOut(16, versionReply)]
                          + ReadExchange(MEMTYPE_CHIPINFO, 0, chipReply)
                && |versionReply| == 16 && version[..] == MaskVersion(versionReply)
                && |chipReply| == 8 && ChipInfo(signature, pagesize, flashsize, eepromsize) == DecodeChipInfo(chipReply)
      ensures result != 0 ==>
                signature == old(signature) && pagesize == old(pagesize) && flashsize == old(flashsize)
                && eepromsize == old(eepromsize)
      ensures result != 0 && deviceOpened ==> log[|log| - 1].Wrote? && log[|log| - 1].frame == SwitchFrame(BOOTTYPE_APPLICATION)
    {
      versionReply, chipReply := [], [];
      if !deviceOpened {
        return -1, versionReply, chipReply;
      }
      connected := true;
      var failed;
      failed, versionReply, chipReply := Handshake();
      if failed {
        ghost var before := log;
        result := Close();
        assert log[..|before|] == before;
        return -1, versionReply, chipReply;
      }
      return 0, versionReply, chipReply;
    }

    /** The requests of twb_open: switch to the bootloader, read the
        version, read and decode the chip info; stops at the first failure. */
    method Handshake() returns (failed: bool, ghost versionReply: seq<byte>, ghost chipReply: seq<byte>)
      requires Valid()
      modifies this`log, this`transfers, this`signature, this`pagesize, this`flashsize, this`eepromsize, version
      ensures Valid()
      ensures |old(log)| < |log| && log[|old(log)|] == Wrote(SwitchFrame(BOOTTYPE_BOOTLOADER), accepts(old(transfers)))
      ensures !failed ==>
                && log == old(log) + [Wrote(SwitchFrame(BOOTTYPE_BOOTLOADER), true), Wrote([CMD_READ_VERSION], true), ReadOut(16, versionReply)]
                          + ReadExchange(MEMTYPE_CHIPINFO, 0, chipReply)
                && |versionReply| == 16 && version[..] == MaskVersion(versionReply)
                && |chipReply| == 8 && ChipInfo(signature, pagesize, flashsize, eepromsize) == DecodeChipInfo(chipReply)
      ensures failed ==>
                signature == old(signature) && pagesize == old(pagesize) && flashsize == old(flashsize)
                && eepromsize == old(eepromsize)
    {
      versionReply, chipReply := [], [];
      var opening := SwitchApplication(BOOTTYPE_BOOTLOADER);
      if opening {
        return true, versionReply, chipReply;
      }
      ghost var afterSwitch := log;
      var r;
      r, versionReply := ReadVersion();
      assert log[..|afterSwitch|] == afterSwitch;
      if r != 0 {
        return true, versionReply, chipReply;
      }
      ghost var afterVersion := log;
      failed, chipReply := ReadChipInfo();
      assert log[..|afterVersion|] == afterVersion;
    }

    /** The chip-info request of twb_open: reads the 8 bytes at address 0
        of MEMTYPE_CHIPINFO and, when all arrived, stores what they
        encode. */
    method ReadChipInfo() returns (failed: bool, ghost reply: seq<byte>)
      requires Valid()
      modifies this`log, this`transfers, this`signature, this`pagesize, this`flashsize, this`eepromsize
      ensures Valid()
      ensures log == old(log) + ReadAttempt(MEMTYPE_CHIPINFO, 0, 8, accepts(old(transfers)), reply)
      ensures failed <==> !accepts(old(transfers)) || |reply| != 8
      ensures !failed ==> ChipInfo(signature, pagesize, flashsize, eepromsize) == DecodeChipInfo(reply)
      ensures failed ==>
                signature == old(signature) && pagesize == old(pagesize) && flashsize == old(flashsize)
                && eepromsize == old(eepromsize)
    {
      var chipinfo := new byte[8](_ => 0);
      failed, reply := ReadMemory(chipinfo, 0, 8, MEMTYPE_CHIPINFO, 0);
      if failed {
        return;
      }
      assert chipinfo[..] == chipinfo[..0 + |reply|];
      var info := DecodeChipInfo(chipinfo[..]);
      signature, pagesize, flashsize, eepromsize := info.signature, info.pagesize, info.flashsize, info.eepromsize;
    }

    // -------------------------------------------------------------------
    // Whole memories

    /** twb_read: reads the whole memory of type `memtype` into `dbuf` in
        blocks of at most READ_BLOCK_SIZE bytes.  `read` are the blocks read
        before the loop stopped and `replies` their contents; on failure
        `at` is the block whose transfer failed, `read + [at]` is a prefix
        of the blocks, and the buffer's length is left alone.  `reports`
        are the progress reports shown. */
    method Read(dbuf: DataBuf, memtype: byte)
      returns (result: int, ghost read: seq<Block>, ghost at: Block, ghost replies: seq<seq<byte>>,
               ghost tail: seq<Transfer>, ghost reports: seq<Progress>)
      requires Valid() && MemorySize(memtype) <= dbuf.data.Length
      modifies this`log, this`transfers, dbuf`length, dbuf.data
      ensures Valid()
      ensures result == 0 || result == -1
      ensures Fits(read, replies)
      ensures result == 0 ==>
                && read == Blocks(0, MemorySize(memtype), READ_BLOCK_SIZE)
                && log == old(log) + ReadLog(memtype, read, replies)
                && dbuf.data[..MemorySize(memtype)] == Join(replies)
                && dbuf.length == MemorySize(memtype)
                && reports == Shown(hasProgress, Marks(read, MemorySize(memtype)) + [Progress(MemorySize(memtype), MemorySize(memtype))])
      ensures result == -1 ==>
                && read + [at] + Blocks(at.pos + at.len, MemorySize(memtype), READ_BLOCK_SIZE)
                   == Blocks(0, MemorySize(memtype), READ_BLOCK_SIZE)
                && at.pos + at.len <= MemorySize(memtype)
                && log == old(log) + ReadLog(memtype, read, replies) + tail
                && ReadFailure(tail, memtype, Trunc16(at.pos), at.len)
                && dbuf.data[..at.pos] == Join(replies)
                && dbuf.length == old(dbuf.length)
                && reports == Shown(hasProgress, Marks(read + [at], MemorySize(memtype)) + [Progress(-1, -1)])
    {
      var size := MemorySize(memtype);
      var failed;
      failed, read, at, replies, tail := ReadBlocks(dbuf.data, memtype, size);
      if failed {
        ChunkedStop(read, at, size, READ_BLOCK_SIZE);
        reports := Shown(hasProgress, Marks(read + [at], size) + [Progress(-1, -1)]);
        return -1, read, at, replies, tail, reports;
      }
      ChunkedAll(read, size, READ_BLOCK_SIZE);
      reports := Shown(hasProgress, Marks(read, size) + [Progress(size, size)]);
      dbuf.length := size;
      result := 0;
    }

    /** The loop of twb_read over the blocks of `[0, size)`: one
        twb_read_memory per block, into `buffer` at the block's position,
        until one fails. */
    method ReadBlocks(buffer: array<byte>, memtype: byte, size: nat)
      returns (failed: bool, ghost read: seq<Block>, ghost at: Block, ghost replies: seq<seq<byte>>,
               ghost tail: seq<Transfer>)
      requires Valid() && size <= buffer.Length
      modifies this`log, this`transfers, buffer
      ensures Valid()
      ensures Fits(read, replies)
      ensures !failed ==>
                && Chunked(read, size, size, READ_BLOCK_SIZE)
                && log == old(log) + ReadLog(memtype, read, replies)
                && buffer[..size] == Join(replies)
      ensures failed ==>
                && Chunked(read, at.pos, size, READ_BLOCK_SIZE)
                && at.pos < size && at.len == Min(READ_BLOCK_SIZE, size - at.pos)
                && log == old(log) + ReadLog(memtype, read, replies) + tail
                && ReadFailure(tail, memtype, Trunc16(at.pos), at.len)
                && buffer[..at.pos] == Join(replies)
    {
      var pos: nat := 0;
      read, at, replies, tail := [], Block(0, 0), [], [];
      while pos < size
        invariant Valid() && pos <= size
        invariant Chunked(read, pos, size, READ_BLOCK_SIZE)
        invariant Fits(read, replies)
        invariant log == old(log) + ReadLog(memtype, read, replies)
        invariant buffer[..pos] == Join(replies)
        decreases size - pos
      {
        var len;
        ghost var read', replies', attempt;
        ChunkedSnoc(read, pos, size, READ_BLOCK_SIZE);
        failed, len, read', replies', attempt := ReadNext(buffer, memtype, size, pos, old(log), read, replies);
        at := Block(pos, len);
        if failed {
          tail := attempt;
          return;
        }
        read, replies := read', replies';
        pos := pos + len;
      }
      failed := false;
    }

    /** One iteration of the twb_read loop: twb_read_memory for the
        block at `pos`, into `buffer` at `pos`, which extends the blocks
        read so far by one when it succeeds. */
    method ReadNext(buffer: array<byte>, memtype: byte, size: nat, pos: nat, ghost prefix: seq<Transfer>,
                    ghost read: seq<Block>, ghost replies: seq<seq<byte>>)
      returns (failed: bool, len: byte, ghost read': seq<Block>, ghost replies': seq<seq<byte>>,
               ghost attempt: seq<Transfer>)
      requires Valid() && pos < size <= buffer.Length
      requires Fits(read, replies)
      requires log == prefix + ReadLog(memtype, read, replies) && buffer[..pos] == Join(replies)
      modifies this`log, this`transfers, buffer
      ensures Valid()
      ensures len == Min(READ_BLOCK_SIZE, size - pos) && pos + len <= size
      ensures !failed ==>
                && read' == read + [Block(pos, len)]
                && Fits(read', replies')
                && log == prefix + ReadLog(memtype, read', replies')
                && buffer[..pos + len] == Join(replies')
      ensures failed ==>
                && log == prefix + ReadLog(memtype, read, replies) + attempt
                && ReadFailure(attempt, memtype, Trunc16(pos), len)
                && buffer[..pos] == Join(replies)
    {
      len := Min(READ_BLOCK_SIZE, size - pos);
      ghost var count := transfers;
      ghost var reply;
      read', replies' := read, replies;
      failed, reply := ReadMemory(buffer, pos, len, memtype, Trunc16(pos));
      attempt := ReadAttempt(memtype, Trunc16(pos), len, accepts(count), reply);
      AttemptOutcome(memtype, Trunc16(pos), len, accepts(count), reply);
      if failed {
        return;
      }
      FitsSnoc(read, replies, Block(pos, len), reply);
      ReadLogSnoc(prefix, memtype, read, replies, Block(pos, len), reply);
      JoinSnoc(replies, reply);
      read', replies' := read + [Block(pos, len)], replies + [reply];
    }

    /** twb_verify, as corrected: reads the image of `dbuf`, its first
        `dbuf.length` bytes, back in blocks of at most READ_BLOCK_SIZE bytes
        and compares each block with the bytes of `dbuf` at the same
        position, stopping at the first block whose transfer fails or whose
        contents differ.  `read` are the blocks that matched and `replies`
        their contents; on failure `at` is the block that stopped the loop.
        The final `dbuf->length = pos` leaves the length as it was.  As
        written, twb.c compares the whole memory instead; see
        `TwbFrames.VerifyComparesPastImage`. */
    method Verify(dbuf: DataBuf, memtype: byte)
      returns (result: int, ghost read: seq<Block>, ghost at: Block, ghost replies: seq<seq<byte>>,
               ghost tail: seq<Transfer>, ghost reports: seq<Progress>)
      requires Valid() && dbuf.length <= dbuf.data.Length
      modifies this`log, this`transfers, dbuf`length
      ensures Valid() && dbuf.length == old(dbuf.length)
      ensures result == 0 || result == -1
      ensures Fits(read, replies)
      ensures result == 0 ==>
                && read == Blocks(0, dbuf.length, READ_BLOCK_SIZE)
                && log == old(log) + ReadLog(memtype, read, replies)
                && Join(replies) == dbuf.data[..dbuf.length]
                && reports == Shown(hasProgress, Marks(read, dbuf.length) + [Progress(dbuf.length, dbuf.length)])
      ensures result == -1 ==>
                && read + [at] + Blocks(at.pos + at.len, dbuf.length, READ_BLOCK_SIZE)
                   == Blocks(0, dbuf.length, READ_BLOCK_SIZE)
                && at.pos + at.len <= dbuf.length
                && log == old(log) + ReadLog(memtype, read, replies) + tail
                && VerifyFailure(tail, memtype, Trunc16(at.pos), dbuf.data[at.pos..at.pos + at.len])
                && Join(replies) == dbuf.data[..at.pos]
                && reports == Shown(hasProgress, Marks(read + [at], dbuf.length) + [Progress(-1, -1)])
    {
      var size := dbuf.length;
      var failed;
      ghost var data := dbuf.data[..size];
      failed, read, at, replies, tail := VerifyBlocks(dbuf.data[..size], memtype);
      assert dbuf.data[..size] == data;
      if failed {
        ChunkedStopped(read, at, size, READ_BLOCK_SIZE);
        assert data[at.pos..at.pos + at.len] == dbuf.data[at.pos..at.pos + at.len];
        assert data[..at.pos] == dbuf.data[..at.pos];
        reports := Shown(hasProgress, Marks(read + [at], size) + [Progress(-1, -1)]);
        return -1, read, at, replies, tail, reports;
      }
      ChunkedAll(read, size, READ_BLOCK_SIZE);
      reports := Shown(hasProgress, Marks(read, size) + [Progress(size, size)]);
      dbuf.length := size;
      result := 0;
    }

    /** The loop of twb_verify over `data`, reading each block into the
        block-sized buffer `comp`. */
    method VerifyBlocks(data: seq<byte>, memtype: byte)
      returns (failed: bool, ghost read: seq<Block>, ghost at: Block, ghost replies: seq<seq<byte>>,
               ghost tail: seq<Transfer>)
      requires Valid()
      modifies this`log, this`transfers
      ensures Valid()
      ensures Fits(read, replies)
      ensures !failed ==>
                && Chunked(read, |data|, |data|, READ_BLOCK_SIZE)
                && log == old(log) + ReadLog(memtype, read, replies)
                && Join(replies) == data
      ensures failed ==>
                && Chunked(read + [at], at.pos + at.len, |data|, READ_BLOCK_SIZE)
                && log == old(log) + ReadLog(memtype, read, replies) + tail
                && VerifyFailure(tail, memtype, Trunc16(at.pos), data[at.pos..at.pos + at.len])
                && Join(replies) == data[..at.pos]
    {
      var comp := new byte[READ_BLOCK_SIZE];
      var pos: nat := 0;
      read, at, replies, tail := [], Block(0, 0), [], [];
      while pos < |data|
        invariant Valid() && pos <= |data| && comp.Length == READ_BLOCK_SIZE
        invariant Chunked(read, pos, |data|, READ_BLOCK_SIZE)
        invariant Fits(read, replies)
        invariant log == old(log) + ReadLog(memtype, read, replies)
        invariant Join(replies) == data[..pos]
        decreases |data| - pos
      {
        var len;
        ghost var read', replies';
        failed, len, read', replies', tail := VerifyNext(comp, data, memtype, pos, old(log), read, replies);
        at := Block(pos, len);
        if failed {
          return;
        }
        read, replies := read', replies';
        pos := pos + len;
      }
      failed := false;
    }

    /** One iteration of the twb_verify loop: twb_read_memory of the block
        at `pos` into `comp`, then the comparison with `data`. */
    method VerifyNext(comp: array<byte>, data: seq<byte>, memtype: byte, pos: nat, ghost prefix: seq<Transfer>,
                      ghost read: seq<Block>, ghost replies: seq<seq<byte>>)
      returns (failed: bool, len: byte, ghost read': seq<Block>, ghost replies': seq<seq<byte>>,
               ghost attempt: seq<Transfer>)
      requires Valid() && pos < |data| && comp.Length == READ_BLOCK_SIZE
      requires Chunked(read, pos, |data|, READ_BLOCK_SIZE) && Fits(read, replies)
      requires log == prefix + ReadLog(memtype, read, replies) && Join(replies) == data[..pos]
      modifies this`log, this`transfers, comp
      ensures Valid()
      ensures Chunked(read + [Block(pos, len)], pos + len, |data|, READ_BLOCK_SIZE)
      ensures !failed ==>
                && read' == read + [Block(pos, len)]
                && Fits(read', replies')
                && log == prefix + ReadLog(memtype, read', replies')
                && Join(replies') == data[..pos + len]
      ensures failed ==>
                && log == prefix + ReadLog(memtype, read, replies) + attempt
                && VerifyFailure(attempt, memtype, Trunc16(pos), data[pos..pos + len])
    {
      len := Min(READ_BLOCK_SIZE, |data| - pos);
      ChunkedSnoc(read, pos, |data|, READ_BLOCK_SIZE);
      ghost var count := transfers;
      ghost var reply;
      read', replies' := read, replies;
      failed, reply := ReadMemory(comp, 0, len, memtype, Trunc16(pos));
      attempt := ReadAttempt(memtype, Trunc16(pos), len, accepts(count), reply);
      AttemptOutcome(memtype, Trunc16(pos), len, accepts(count), reply);
      if failed {
        return;
      }
      assert comp[..len] == reply;
      if comp[..len] != data[pos..pos + len] {
        failed := true;
        return;
      }
      FitsSnoc(read, replies, Block(pos, len), reply);
      ReadLogSnoc(prefix, memtype, read, replies, Block(pos, len), reply);
      JoinSnoc(replies, reply);
      assert data[..pos] + data[pos..pos + len] == data[..pos + len];
      read', replies' := read + [Block(pos, len)], replies + [reply];
    }

    /** twb_write: writes the `dbuf.length` bytes of `dbuf` to the memory of
        type `memtype`, a page at a time for flash and WRITE_BLOCK_SIZE
        bytes at a time otherwise, each block at its own position.
        `written` are the blocks written before the loop stopped; on failure
        `at` is the block whose twb_write_memory failed and `tail` its
        transfers.  With a power-of-two page size no flash block fails the
        alignment test. */
    method Write(dbuf: DataBuf, memtype: byte)
      returns (result: int, ghost written: seq<Block>, ghost at: Block, ghost tail: seq<Transfer>,
               ghost reports: seq<Progress>)
      requires Valid() && dbuf.length <= dbuf.data.Length
      requires memtype == MEMTYPE_FLASH ==> pagesize > 0
      modifies this`log, this`transfers
      ensures Valid()
      ensures result == 0 || result == -1
      ensures Writable(memtype, written, dbuf.data[..dbuf.length], pagesize)
      ensures result == 0 ==>
                && written == Blocks(0, dbuf.length, ChunkSize(memtype, pagesize))
                && log == old(log) + WriteLog(memtype, written, dbuf.data[..dbuf.length], pagesize)
                && reports == Shown(hasProgress, Marks(written, dbuf.length) + [Progress(dbuf.length, dbuf.length)])
      ensures result == -1 ==>
                && written + [at] + Blocks(at.pos + at.len, dbuf.length, ChunkSize(memtype, pagesize))
                   == Blocks(0, dbuf.length, ChunkSize(memtype, pagesize))
                && at.pos + at.len <= dbuf.length && (memtype == MEMTYPE_FLASH ==> at.len <= pagesize)
                && log == old(log) + WriteLog(memtype, written, dbuf.data[..dbuf.length], pagesize) + tail
                && tail == WriteRefusal(memtype, at, dbuf.data[..dbuf.length], pagesize)
                && reports == Shown(hasProgress, Marks(written + [at], dbuf.length) + [Progress(-1, -1)])
      ensures result == -1 && memtype == MEMTYPE_FLASH && PowerOfTwo(pagesize) ==> tail != []
    {
      var data := dbuf.data[..dbuf.length];
      var failed;
      failed, written, at, tail := WriteBlocks(data, memtype);
      if failed {
        WriteStopped(written, at, |data|, memtype, pagesize);
        reports := Shown(hasProgress, Marks(written + [at], |data|) + [Progress(-1, -1)]);
        return -1, written, at, tail, reports;
      }
      ChunkedAll(written, |data|, ChunkSize(memtype, pagesize));
      reports := Shown(hasProgress, Marks(written, |data|) + [Progress(|data|, |data|)]);
      result := 0;
    }

    /** The loop of twb_write over the blocks of `data`: one
        twb_write_memory per block, until one fails. */
    method WriteBlocks(data: seq<byte>, memtype: byte)
      returns (failed: bool, ghost written: seq<Block>, ghost at: Block, ghost tail: seq<Transfer>)
      requires Valid() && (memtype == MEMTYPE_FLASH ==> pagesize > 0)
      modifies this`log, this`transfers
      ensures Valid()
      ensures Writable(memtype, written, data, pagesize)
      ensures !failed ==>
                && Chunked(written, |data|, |data|, ChunkSize(memtype, pagesize))
                && log == old(log) + WriteLog(memtype, written, data, pagesize)
      ensures failed ==>
                && Chunked(written + [at], at.pos + at.len, |data|, ChunkSize(memtype, pagesize))
                && log == old(log) + WriteLog(memtype, written, data, pagesize) + tail
                && tail == WriteRefusal(memtype, at, data, pagesize)
    {
      var pos: nat := 0;
      ghost var chunk := ChunkSize(memtype, pagesize);
      written, at, tail := [], Block(0, 0), [];
      while pos < |data|
        invariant Valid() && pos <= |data|
        invariant chunk == ChunkSize(memtype, pagesize)
        invariant Chunked(written, pos, |data|, chunk)
        invariant Writable(memtype, written, data, pagesize)
        invariant log == old(log) + WriteLog(memtype, written, data, pagesize)
        decreases |data| - pos
      {
        var len;
        ghost var before := log;
        failed, len, tail := WriteNext(data, memtype, pos);
        at := Block(pos, len);
        WriteStep(old(log), memtype, written, data, pagesize, at, before, log, failed, tail);
        if failed {
          return;
        }
        written := written + [at];
        pos := pos + len;
      }
      failed := false;
    }

    /** One iteration of the twb_write loop: twb_write_memory for the
        next block, which starts at `pos` and is a chunk long or the rest
        of `data`. */
    method WriteNext(data: seq<byte>, memtype: byte, pos: nat)
      returns (failed: bool, len: byte, ghost attempt: seq<Transfer>)
      requires Valid() && pos < |data| && (memtype == MEMTYPE_FLASH ==> pagesize > 0)
      modifies this`log, this`transfers
      ensures Valid()
      ensures len == Min(ChunkSize(memtype, pagesize), |data| - pos)
      ensures !failed ==> log == old(log) + [Wrote(BlockFrame(memtype, Block(pos, len), data, pagesize), true)]
      ensures failed ==>
                && log == old(log) + attempt
                && attempt == WriteRefusal(memtype, Block(pos, len), data, pagesize)
    {
      len := Min(ChunkSize(memtype, pagesize), |data| - pos);
      var b := Block(pos, len);
      failed := WriteMemory(data[pos..pos + len], memtype, Trunc16(pos));
      attempt := if failed then WriteRefusal(memtype, b, data, pagesize) else [];
    }
  }

  /** A reply is never longer than asked for. */
  function Clip(s: seq<byte>, n: nat): (r: seq<byte>)
    ensures |r| <= n && |r| <= |s| && r == s[..|r|]
    ensures |s| <= n ==> r == s
  {
    if |s| <= n then s else s[..n]
  }
}
