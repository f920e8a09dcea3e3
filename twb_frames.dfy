/** What the host driver linux/twb.c puts on the bus, as values: request
    frames, the alignment test, the chunking of a memory into blocks, the
    decoding of the chip-info block, and the record of bus transfers and
    progress reports its loops produce. */
module TwbFrames {
  import opened Wire

  const READ_BLOCK_SIZE: nat := 128
  const WRITE_BLOCK_SIZE: nat := 16

  function Min(a: int, b: int): int { if a < b then a else b }

  /** The block size twb_write uses: a page for flash, WRITE_BLOCK_SIZE
      bytes otherwise. */
  function ChunkSize(memtype: byte, pagesize: byte): nat
  {
    if memtype == MEMTYPE_FLASH then pagesize else WRITE_BLOCK_SIZE
  }

  // ---------------------------------------------------------------------
  // Frames

  /** twb_switch_application's frame. */
  function SwitchFrame(application: byte): seq<byte>
  {
    [CMD_SWITCH_APPLICATION, application]
  }

  /** The four header bytes of a memory request: command, memory type, then
      the address high byte first. */
  function Header(command: byte, memtype: byte, address: u16): (r: seq<byte>)
    ensures |r| == 4 && r[0] == command && r[1] == memtype
  {
    [command, memtype, Hi(address), Lo(address)]
  }

  /** The device reassembles the address from bytes 2 and 3 of the header. */
  lemma HeaderAddress(command: byte, memtype: byte, address: u16)
    ensures BigEndian(Header(command, memtype, address)[2], Header(command, memtype, address)[3]) == address
  {
    SplitJoin(address);
  }

  /** The frame of twb_read_memory: the header alone. */
  function ReadRequest(memtype: byte, address: u16): seq<byte>
  {
    Header(CMD_READ_MEMORY, memtype, address)
  }

  /** The frame of twb_write_memory: the header with CMD_WRITE_MEMORY, then
      the data; a flash frame always carries a whole page, the data padded
      with 0xFF. */
  function WriteFrame(memtype: byte, address: u16, data: seq<byte>, pagesize: byte): (r: seq<byte>)
    requires memtype == MEMTYPE_FLASH ==> |data| <= pagesize
    ensures |r| >= 4 + |data| && r[..4] == Header(CMD_WRITE_MEMORY, memtype, address)
    ensures r[4..4 + |data|] == data
    ensures memtype == MEMTYPE_FLASH ==> |r| == 4 + pagesize && forall i | 4 + |data| <= i < |r| :: r[i] == 0xFF
    ensures memtype != MEMTYPE_FLASH ==> |r| == 4 + |data|
  {
    var header := Header(CMD_WRITE_MEMORY, memtype, address);
    if memtype == MEMTYPE_FLASH then header + data + seq(pagesize - |data|, _ => 0xFF)
    else header + data
  }

  /** `c & ~0x80`: the version string is reduced to 7-bit characters. */
  function ClearBit7(c: byte): (r: byte)
    ensures r < 0x80
    ensures c < 0x80 ==> r == c
    ensures c >= 0x80 ==> r == c - 0x80
  {
    c % 0x80
  }

  /** The version string as twb_read_version leaves it. */
  function MaskVersion(s: seq<byte>): (r: seq<byte>)
    ensures |r| == |s| && forall i | 0 <= i < |s| :: r[i] == ClearBit7(s[i])
  {
    seq(|s|, i requires 0 <= i < |s| => ClearBit7(s[i]))
  }

  // ---------------------------------------------------------------------
  // Page alignment: `address & (pagesize - 1)`

  /** Bitwise AND of two naturals. */
  function BitAnd(a: nat, b: nat): (r: nat)
    ensures r <= a && r <= b
    decreases a
  {
    if a == 0 || b == 0 then 0
    else 2 * BitAnd(a / 2, b / 2) + (if a % 2 == 1 && b % 2 == 1 then 1 else 0)
  }

  /** The value twb_write_memory tests against zero.  With `pagesize == 0`
      the mask `pagesize - 1` is -1, every bit set. */
  function Misalignment(address: u16, pagesize: byte): nat
  {
    if pagesize == 0 then address else BitAnd(address, pagesize - 1)
  }

  /** The page sizes an 8-bit field can hold that the mask test is meant for. */
  predicate PowerOfTwo(p: nat)
  {
    p in {1, 2, 4, 8, 16, 32, 64, 128}
  }

  /** `a % (2q)` from `(a / 2) % q` and the low bit. */
  lemma ModDouble(a: nat, q: nat)
    requires q > 0
    ensures a % (2 * q) == 2 * ((a / 2) % q) + a % 2
  {
    var h := a / 2;
    assert a == 2 * h + a % 2;
    assert h == q * (h / q) + h % q;
    assert a == (2 * q) * (h / q) + (2 * (h % q) + a % 2);
    ModUnique(a, 2 * q, h / q, 2 * (h % q) + a % 2);
  }

  /** Masking with `p - 1` keeps the remainder modulo `p` when `p` is a power
      of two. */
  lemma {:induction false} LowBits(a: nat, p: nat)
    requires PowerOfTwo(p)
    ensures BitAnd(a, p - 1) == a % p
    decreases p
  {
    if p == 1 {
      ModUnique(a, 1, a, 0);
    } else if a == 0 {
      ModUnique(0, p, 0, 0);
    } else {
      var q := p / 2;
      assert p == 2 * q && PowerOfTwo(q);
      HalfUnique(p - 1, q - 1, 1);
      ModDouble(a, q);
      LowBits(a / 2, q);
      assert BitAnd(a, p - 1) == 2 * BitAnd(a / 2, q - 1) + a % 2;
    }
  }

  /** For a power-of-two page size the test accepts exactly the multiples of
      the page size. */
  lemma AlignmentTest(address: u16, pagesize: byte)
    requires PowerOfTwo(pagesize)
    ensures Misalignment(address, pagesize) == 0 <==> address % pagesize == 0
  {
    LowBits(address, pagesize);
  }

  // ---------------------------------------------------------------------
  // Chunking

  /** One bus transaction's share of a memory: `len` bytes from `pos`. */
  datatype Block = Block(pos: nat, len: nat)

  /** The blocks the loops of twb_read, twb_write and twb_verify visit:
      starting at `pos`, each takes `min(size, total - pos)` bytes, until
      `total` is reached. */
  function Blocks(pos: nat, total: nat, size: nat): (r: seq<Block>)
    requires size > 0
    ensures pos < total <==> r != []
    decreases total - pos
  {
    if pos >= total then []
    else
      var len := Min(size, total - pos);
      [Block(pos, len)] + Blocks(pos + len, total, size)
  }

  /** Every block is non-empty, at most `size` long and inside
      `[pos, total)`. */
  lemma {:induction false} BlocksWithin(pos: nat, total: nat, size: nat)
    requires size > 0
    ensures forall b | b in Blocks(pos, total, size) :: 0 < b.len <= size && pos <= b.pos && b.pos + b.len <= total
    decreases total - pos
  {
    if pos < total {
      var len := Min(size, total - pos);
      BlocksWithin(pos + len, total, size);
      assert Blocks(pos, total, size) == [Block(pos, len)] + Blocks(pos + len, total, size);
    }
  }

  /** The first block starts at `pos` and the last ends at `total`. */
  lemma {:induction false} BlocksEnds(pos: nat, total: nat, size: nat)
    requires size > 0
    ensures var r := Blocks(pos, total, size);
            r != [] ==> r[0].pos == pos && r[|r| - 1].pos + r[|r| - 1].len == total
    decreases total - pos
  {
    if pos < total {
      var len := Min(size, total - pos);
      var rest := Blocks(pos + len, total, size);
      BlocksEnds(pos + len, total, size);
      assert Blocks(pos, total, size) == [Block(pos, len)] + rest;
      if rest == [] {
        assert pos + len == total;
      }
    }
  }

  /** The blocks tile `[pos, total)` in order, and all but the last are
      full. */
  lemma {:induction false} BlocksTile(pos: nat, total: nat, size: nat)
    requires size > 0
    ensures var r := Blocks(pos, total, size);
            forall i | 0 <= i < |r| - 1 :: r[i].len == size && r[i].pos + r[i].len == r[i + 1].pos
    decreases total - pos
  {
    if pos < total {
      var len := Min(size, total - pos);
      var r := Blocks(pos, total, size);
      var rest := Blocks(pos + len, total, size);
      BlocksTile(pos + len, total, size);
      BlocksEnds(pos + len, total, size);
      assert r == [Block(pos, len)] + rest;
      forall i | 0 <= i < |r| - 1
        ensures r[i].len == size && r[i].pos + r[i].len == r[i + 1].pos
      {
        if i == 0 {
          assert r[1] == rest[0] && rest != [];
          assert pos + len < total;
        } else {
          assert r[i] == rest[i - 1] && r[i + 1] == rest[i];
        }
      }
    }
  }

  /** Every position in `[pos, total)` lies in one of the blocks. */
  lemma {:induction false} BlocksCover(pos: nat, total: nat, size: nat, p: nat)
    requires size > 0 && pos <= p < total
    ensures exists b :: b in Blocks(pos, total, size) && b.pos <= p < b.pos + b.len
    decreases total - pos
  {
    var len := Min(size, total - pos);
    var r := Blocks(pos, total, size);
    assert r == [Block(pos, len)] + Blocks(pos + len, total, size);
    if p < pos + len {
      assert r[0] == Block(pos, len);
    } else {
      BlocksCover(pos + len, total, size, p);
      var b :| b in Blocks(pos + len, total, size) && b.pos <= p < b.pos + b.len;
      assert b in r;
    }
  }

  /** twb_verify as written compares the blocks of the whole memory,
      `[0, memsize)`, against the caller's buffer, which holds the image of
      `length` bytes read from the file and no more.  When the image is
      shorter than the memory, some compared block reaches the position
      `length`, past the end of that buffer, and twb_write, which sends the
      blocks of `[0, length)`, never wrote that position. */
  lemma VerifyComparesPastImage(length: nat, memsize: nat, chunk: nat)
    requires length < memsize && chunk > 0
    ensures exists b :: b in Blocks(0, memsize, READ_BLOCK_SIZE) && b.pos <= length < b.pos + b.len
    ensures forall b | b in Blocks(0, length, chunk) :: b.pos + b.len <= length
  {
    BlocksCover(0, memsize, READ_BLOCK_SIZE, length);
    BlocksWithin(0, length, chunk);
  }

  /** Verifying the image itself, `[0, length)`, compares exactly the bytes
      twb_write sent: every compared byte lies inside the image and in one of
      the blocks twb_write wrote, whatever its block size, and every byte of
      the image is compared. */
  lemma VerifyComparesWritten(length: nat, chunk: nat, p: nat)
    requires chunk > 0 && p < length
    ensures forall b | b in Blocks(0, length, READ_BLOCK_SIZE) :: b.pos + b.len <= length
    ensures exists b :: b in Blocks(0, length, READ_BLOCK_SIZE) && b.pos <= p < b.pos + b.len
    ensures exists w :: w in Blocks(0, length, chunk) && w.pos <= p < w.pos + w.len
  {
    BlocksWithin(0, length, READ_BLOCK_SIZE);
    BlocksCover(0, length, READ_BLOCK_SIZE, p);
    BlocksCover(0, length, chunk, p);
  }

  /** A read of `total` bytes takes `ceil(total / 128)` transactions. */
  lemma {:induction false} ReadBlocksCount(pos: nat, total: nat)
    requires pos <= total
    ensures |Blocks(pos, total, READ_BLOCK_SIZE)| == (total - pos + 127) / 128
    decreases total - pos
  {
    if pos < total {
      var len := Min(READ_BLOCK_SIZE, total - pos);
      ReadBlocksCount(pos + len, total);
    }
  }

  /** An EEPROM write of `total` bytes takes `ceil(total / 16)` transactions. */
  lemma {:induction false} EepromBlocksCount(pos: nat, total: nat)
    requires pos <= total
    ensures |Blocks(pos, total, WRITE_BLOCK_SIZE)| == (total - pos + 15) / 16
    decreases total - pos
  {
    if pos < total {
      var len := Min(WRITE_BLOCK_SIZE, total - pos);
      EepromBlocksCount(pos + len, total);
    }
  }

  /** Adding a page keeps page alignment, also after truncation to 16 bits. */
  lemma AddPage(pos: nat, p: nat)
    requires PowerOfTwo(p)
    ensures (pos + p) % p == pos % p
    ensures Trunc16(pos) % p == pos % p
  {
    assert pos == p * (pos / p) + pos % p;
    ModUnique(pos + p, p, pos / p + 1, pos % p);
    TruncMod(pos, p, 0x1_0000 / p);
  }

  /** Truncating to 16 bits leaves the remainder modulo any divisor `p` of
      0x10000 as it was. */
  lemma TruncMod(pos: nat, p: nat, m: nat)
    requires p > 0 && p * m == 0x1_0000
    ensures Trunc16(pos) % p == pos % p
  {
    var t, hi := Trunc16(pos), pos / 0x1_0000;
    var u := t / p;
    assert pos == 0x1_0000 * hi + t;
    assert 0x1_0000 * hi == p * (m * hi);
    assert t == p * u + t % p;
    assert p * (m * hi) + p * u == p * (m * hi + u);
    ModUnique(pos, p, m * hi + u, t % p);
  }

  /** Chunking from a page boundary in pages: every block starts on a page
      boundary, so the alignment test of twb_write_memory passes for each. */
  lemma {:induction false} BlocksAligned(pos: nat, total: nat, pagesize: byte)
    requires PowerOfTwo(pagesize) && pos % pagesize == 0
    ensures forall b | b in Blocks(pos, total, pagesize) ::
              b.pos % pagesize == 0 && Misalignment(Trunc16(b.pos), pagesize) == 0
    decreases total - pos
  {
    if pos < total {
      var len := Min(pagesize, total - pos);
      var r := Blocks(pos, total, pagesize);
      AddPage(pos, pagesize);
      AlignmentTest(Trunc16(pos), pagesize);
      if len == pagesize {
        BlocksAligned(pos + len, total, pagesize);
      }
      assert r == [Block(pos, len)] + Blocks(pos + len, total, pagesize);
    }
  }

  // ---------------------------------------------------------------------
  // Chip info

  /** The device parameters twb_open reads from the 8-byte chip-info block. */
  datatype ChipInfo = ChipInfo(signature: seq<byte>, pagesize: byte, flashsize: u16, eepromsize: u16)

  function DecodeChipInfo(c: seq<byte>): (r: ChipInfo)
    requires |c| == 8
    ensures r.signature == c[..3] && r.pagesize == c[3]
    ensures Hi(r.flashsize) == c[4] && Lo(r.flashsize) == c[5]
    ensures Hi(r.eepromsize) == c[6] && Lo(r.eepromsize) == c[7]
  {
    ChipInfo(c[..3], c[3], BigEndian(c[4], c[5]), BigEndian(c[6], c[7]))
  }

  // ---------------------------------------------------------------------
  // Bus transfers and progress reports

  /** One `write` or `read` on the bus device: a frame and whether all of it
      was transferred, or the number of bytes asked for and those delivered. */
  datatype Transfer = Wrote(frame: seq<byte>, ok: bool) | ReadOut(want: nat, got: seq<byte>)

  /** One call of the progress callback. */
  datatype Progress = Progress(pos: int, max: int)

  /** The transfers of a request that expects a reply of `want` bytes: the
      request frame, and when it was accepted, the read of the reply. */
  function Request(frame: seq<byte>, accepted: bool, want: nat, reply: seq<byte>): (r: seq<Transfer>)
    ensures |r| == if accepted then 2 else 1
    ensures r[0] == Wrote(frame, accepted)
    ensures accepted ==> r[1] == ReadOut(want, reply)
  {
    if accepted then [Wrote(frame, true), ReadOut(want, reply)] else [Wrote(frame, false)]
  }

  /** The transfers of a twb_read_memory of `want` bytes. */
  function ReadAttempt(memtype: byte, address: u16, want: nat, accepted: bool, reply: seq<byte>): seq<Transfer>
  {
    Request(ReadRequest(memtype, address), accepted, want, reply)
  }

  /** The transfers of a twb_read_memory that succeeded. */
  function ReadExchange(memtype: byte, address: u16, reply: seq<byte>): seq<Transfer>
  {
    ReadAttempt(memtype, address, |reply|, true, reply)
  }

  /** The transfers of a twb_read_memory that failed: the request was
      refused, or the reply came short. */
  predicate ReadFailure(t: seq<Transfer>, memtype: byte, address: u16, want: nat)
  {
    || t == [Wrote(ReadRequest(memtype, address), false)]
    || (|t| == 2 && t[0] == Wrote(ReadRequest(memtype, address), true)
        && t[1].ReadOut? && t[1].want == want && |t[1].got| != want)
  }

  /** An attempt fails exactly when the request is refused or the reply is
      short, and then it is a failure in the sense above. */
  lemma AttemptOutcome(memtype: byte, address: u16, want: nat, accepted: bool, reply: seq<byte>)
    requires !accepted ==> reply == []
    ensures accepted && |reply| == want ==> ReadAttempt(memtype, address, want, accepted, reply) == ReadExchange(memtype, address, reply)
    ensures !(accepted && |reply| == want) ==> ReadFailure(ReadAttempt(memtype, address, want, accepted, reply), memtype, address, want)
  {
  }

  /** The transfers of successful block reads, block after block. */
  function ReadLog(memtype: byte, blocks: seq<Block>, replies: seq<seq<byte>>): seq<Transfer>
    requires |blocks| == |replies|
  {
    if blocks == [] then []
    else
      var k := |blocks| - 1;
      ReadLog(memtype, blocks[..k], replies[..k]) + ReadExchange(memtype, Trunc16(blocks[k].pos), replies[k])
  }

  /** Blocks whose bytes lie inside `data` and, for flash, fit in one page:
      those twb_write_memory can frame. */
  predicate Writable(memtype: byte, blocks: seq<Block>, data: seq<byte>, pagesize: byte)
    decreases |blocks|
  {
    blocks != [] ==>
      var b := blocks[|blocks| - 1];
      && Writable(memtype, blocks[..|blocks| - 1], data, pagesize)
      && b.pos + b.len <= |data| && (memtype == MEMTYPE_FLASH ==> b.len <= pagesize)
  }

  /** The frame twb_write_memory sends for block `b` of `data`. */
  function BlockFrame(memtype: byte, b: Block, data: seq<byte>, pagesize: byte): (r: seq<byte>)
    requires b.pos + b.len <= |data| && (memtype == MEMTYPE_FLASH ==> b.len <= pagesize)
  {
    WriteFrame(memtype, Trunc16(b.pos), data[b.pos..b.pos + b.len], pagesize)
  }

  /** The transfers of successful block writes: one frame per block, with the
      block's bytes of `data`. */
  function WriteLog(memtype: byte, blocks: seq<Block>, data: seq<byte>, pagesize: byte): seq<Transfer>
    requires Writable(memtype, blocks, data, pagesize)
  {
    if blocks == [] then []
    else
      var k := |blocks| - 1;
      WriteLog(memtype, blocks[..k], data, pagesize) + [Wrote(BlockFrame(memtype, blocks[k], data, pagesize), true)]
  }

  /** The frames twb_write sends for an image `data`, from `pos` on: one
      write frame per block of at most `size` bytes. */
  function ImageFrames(memtype: byte, data: seq<byte>, pos: nat, size: nat, pagesize: byte): seq<seq<byte>>
    requires 0 < size && (memtype == MEMTYPE_FLASH ==> size <= pagesize)
    decreases |data| - pos
  {
    if pos >= |data| then []
    else
      var len := Min(size, |data| - pos);
      [BlockFrame(memtype, Block(pos, len), data, pagesize)] + ImageFrames(memtype, data, pos + len, size, pagesize)
  }

  /** There is one frame per block twb_write visits. */
  lemma {:induction false} ImageFramesCount(memtype: byte, data: seq<byte>, pos: nat, size: nat, pagesize: byte)
    requires 0 < size && (memtype == MEMTYPE_FLASH ==> size <= pagesize)
    ensures |ImageFrames(memtype, data, pos, size, pagesize)| == |Blocks(pos, |data|, size)|
    decreases |data| - pos
  {
    if pos < |data| {
      ImageFramesCount(memtype, data, pos + Min(size, |data| - pos), size, pagesize);
    }
  }

  /** The `i`-th frame is the write frame of the `i`-th block twb_write
      visits. */
  lemma {:induction false} ImageFrameAt(memtype: byte, data: seq<byte>, pos: nat, size: nat, pagesize: byte, i: nat)
    requires 0 < size && (memtype == MEMTYPE_FLASH ==> size <= pagesize)
    requires i < |Blocks(pos, |data|, size)|
    ensures var bs := Blocks(pos, |data|, size);
            var f := ImageFrames(memtype, data, pos, size, pagesize);
            && i < |f| && bs[i].pos + bs[i].len <= |data| && bs[i].len <= size
            && f[i] == BlockFrame(memtype, bs[i], data, pagesize)
    decreases i
  {
    var len := Min(size, |data| - pos);
    BlocksStep(pos, |data|, size);
    var bs, rest := Blocks(pos, |data|, size), Blocks(pos + len, |data|, size);
    var f, g := ImageFrames(memtype, data, pos, size, pagesize), ImageFrames(memtype, data, pos + len, size, pagesize);
    assert f == [BlockFrame(memtype, Block(pos, len), data, pagesize)] + g;
    if i == 0 {
      assert bs[0] == Block(pos, len);
    } else {
      ImageFrameAt(memtype, data, pos + len, size, pagesize, i - 1);
      assert bs[i] == rest[i - 1] && f[i] == g[i - 1];
    }
  }

  /** The transfers of a twb_write_memory that failed: none when the flash
      address fails the alignment test, otherwise the refused frame. */
  function WriteRefusal(memtype: byte, b: Block, data: seq<byte>, pagesize: byte): (r: seq<Transfer>)
    requires b.pos + b.len <= |data| && (memtype == MEMTYPE_FLASH ==> b.len <= pagesize)
    ensures r == [] <==> memtype == MEMTYPE_FLASH && Misalignment(Trunc16(b.pos), pagesize) != 0
  {
    if memtype == MEMTYPE_FLASH && Misalignment(Trunc16(b.pos), pagesize) != 0 then []
    else [Wrote(BlockFrame(memtype, b, data, pagesize), false)]
  }

  /** The transfers of a block of twb_verify that stopped the loop: a failed
      read, or a complete reply that differs from the `expected` bytes. */
  predicate VerifyFailure(t: seq<Transfer>, memtype: byte, address: u16, expected: seq<byte>)
  {
    || ReadFailure(t, memtype, address, |expected|)
    || (|t| == 2 && t[1].ReadOut? && t == ReadExchange(memtype, address, t[1].got)
        && |t[1].got| == |expected| && t[1].got != expected)
  }

  /** Concatenation of the replies. */
  function Join(replies: seq<seq<byte>>): seq<byte>
  {
    if replies == [] then [] else Join(replies[..|replies| - 1]) + replies[|replies| - 1]
  }

  /** Each reply has the length of its block. */
  predicate Fits(blocks: seq<Block>, replies: seq<seq<byte>>)
    decreases |blocks|
  {
    && |blocks| == |replies|
    && (blocks != [] ==>
          && Fits(blocks[..|blocks| - 1], replies[..|replies| - 1])
          && |replies[|replies| - 1]| == blocks[|blocks| - 1].len)
  }

  /** One more block and a reply of its length keep the replies fitting. */
  lemma FitsSnoc(blocks: seq<Block>, replies: seq<seq<byte>>, b: Block, reply: seq<byte>)
    requires Fits(blocks, replies) && |reply| == b.len
    ensures Fits(blocks + [b], replies + [reply])
  {
    assert (blocks + [b])[..|blocks|] == blocks;
    assert (replies + [reply])[..|replies|] == replies;
  }

  /** One more block read: one more exchange at the end of the log. */
  lemma ReadLogSnoc(prefix: seq<Transfer>, memtype: byte, blocks: seq<Block>, replies: seq<seq<byte>>, b: Block, reply: seq<byte>)
    requires |blocks| == |replies|
    ensures prefix + ReadLog(memtype, blocks + [b], replies + [reply])
            == (prefix + ReadLog(memtype, blocks, replies)) + ReadExchange(memtype, Trunc16(b.pos), reply)
  {
    assert (blocks + [b])[..|blocks|] == blocks;
    assert (replies + [reply])[..|replies|] == replies;
  }

  /** One more block written: one more frame at the end of the log. */
  lemma WriteLogSnoc(prefix: seq<Transfer>, memtype: byte, blocks: seq<Block>, data: seq<byte>, pagesize: byte, b: Block)
    requires Writable(memtype, blocks, data, pagesize)
    requires b.pos + b.len <= |data| && (memtype == MEMTYPE_FLASH ==> b.len <= pagesize)
    ensures Writable(memtype, blocks + [b], data, pagesize)
    ensures prefix + WriteLog(memtype, blocks + [b], data, pagesize)
            == (prefix + WriteLog(memtype, blocks, data, pagesize)) + [Wrote(BlockFrame(memtype, b, data, pagesize), true)]
  {
    assert (blocks + [b])[..|blocks|] == blocks;
  }

  /** One more block of the write loop: the next block of the chunking
      extends the chunking; a write of it that succeeds extends the log of
      frames written by its frame, one that fails leaves the frames written
      so far followed by the refusal. */
  lemma WriteStep(prefix: seq<Transfer>, memtype: byte, blocks: seq<Block>, data: seq<byte>, pagesize: byte, b: Block,
                  before: seq<Transfer>, after: seq<Transfer>, failed: bool, attempt: seq<Transfer>)
    requires Writable(memtype, blocks, data, pagesize) && before == prefix + WriteLog(memtype, blocks, data, pagesize)
    requires Chunked(blocks, b.pos, |data|, ChunkSize(memtype, pagesize)) && b.pos < |data|
    requires b.len == Min(ChunkSize(memtype, pagesize), |data| - b.pos)
    requires !failed ==> after == before + [Wrote(BlockFrame(memtype, b, data, pagesize), true)]
    requires failed ==> after == before + attempt
    ensures Chunked(blocks + [b], b.pos + b.len, |data|, ChunkSize(memtype, pagesize))
    ensures !failed ==>
              && Writable(memtype, blocks + [b], data, pagesize)
              && after == prefix + WriteLog(memtype, blocks + [b], data, pagesize)
    ensures failed ==> after == prefix + WriteLog(memtype, blocks, data, pagesize) + attempt
  {
    var size := ChunkSize(memtype, pagesize);
    assert b == Block(b.pos, Min(size, |data| - b.pos));
    ChunkedSnoc(blocks, b.pos, |data|, size);
    assert b.pos + b.len <= |data| && (memtype == MEMTYPE_FLASH ==> b.len <= pagesize);
    WriteLogSnoc(prefix, memtype, blocks, data, pagesize, b);
  }

  /** One more reply: the concatenation grows by it. */
  lemma JoinSnoc(replies: seq<seq<byte>>, reply: seq<byte>)
    ensures Join(replies + [reply]) == Join(replies) + reply
  {
    assert (replies + [reply])[..|replies|] == replies;
  }

  /** The first block of a chunking, and the chunking of the rest. */
  lemma BlocksStep(pos: nat, total: nat, size: nat)
    requires size > 0 && pos < total
    ensures Blocks(pos, total, size) == [Block(pos, Min(size, total - pos))] + Blocks(pos + Min(size, total - pos), total, size)
  {
  }

  /** The next block of a chunking under way: when the blocks `visited`
      followed by the chunking from `pos` make up the whole chunking, so do
      the blocks visited with the block at `pos` and the chunking after it. */
  lemma BlocksNext(visited: seq<Block>, pos: nat, total: nat, size: nat)
    requires size > 0 && pos < total && visited + Blocks(pos, total, size) == Blocks(0, total, size)
    ensures var b := Block(pos, Min(size, total - pos));
            visited + [b] + Blocks(pos + b.len, total, size) == Blocks(0, total, size)
  {
    var b := Block(pos, Min(size, total - pos));
    BlocksStep(pos, total, size);
    AppendAssoc(visited, [b], Blocks(pos + b.len, total, size));
  }

  /** `blocks` are the blocks the chunking of `[0, total)` in blocks of
      `size` visits before it reaches `pos`, built up the way the loops of
      twb.c build them: one block at the end at a time. */
  predicate Chunked(blocks: seq<Block>, pos: nat, total: nat, size: nat)
    decreases |blocks|
  {
    if blocks == [] then pos == 0
    else
      var b := blocks[|blocks| - 1];
      && b.pos < total && b.len == Min(size, total - b.pos) && b.pos + b.len == pos
      && Chunked(blocks[..|blocks| - 1], b.pos, total, size)
  }

  /** The loops' step: the block at `pos` extends a chunking under way. */
  lemma ChunkedSnoc(blocks: seq<Block>, pos: nat, total: nat, size: nat)
    requires Chunked(blocks, pos, total, size) && pos < total
    ensures Chunked(blocks + [Block(pos, Min(size, total - pos))], pos + Min(size, total - pos), total, size)
  {
    assert (blocks + [Block(pos, Min(size, total - pos))])[..|blocks|] == blocks;
  }

  /** A chunking built up to `pos`, followed by the chunking from `pos`, is
      the whole chunking. */
  lemma {:induction false} ChunkedPrefix(blocks: seq<Block>, pos: nat, total: nat, size: nat)
    requires size > 0 && Chunked(blocks, pos, total, size)
    ensures pos <= total && blocks + Blocks(pos, total, size) == Blocks(0, total, size)
    decreases |blocks|
  {
    if blocks != [] {
      var k := |blocks| - 1;
      var b := blocks[k];
      ChunkedPrefix(blocks[..k], b.pos, total, size);
      BlocksStep(b.pos, total, size);
      assert blocks == blocks[..k] + [b];
      AppendAssoc(blocks[..k], [b], Blocks(pos, total, size));
    }
  }

  /** A chunking that reached `total` is the whole chunking. */
  lemma ChunkedAll(blocks: seq<Block>, total: nat, size: nat)
    requires size > 0 && Chunked(blocks, total, total, size)
    ensures blocks == Blocks(0, total, size)
  {
    ChunkedPrefix(blocks, total, total, size);
    assert blocks + Blocks(total, total, size) == blocks;
  }

  /** A chunking that stopped at block `at`: the blocks before it, `at`
      and the blocks after it are the whole chunking. */
  lemma ChunkedStop(blocks: seq<Block>, at: Block, total: nat, size: nat)
    requires size > 0 && Chunked(blocks, at.pos, total, size)
    requires at.pos < total && at.len == Min(size, total - at.pos)
    ensures at.pos + at.len <= total
    ensures blocks + [at] + Blocks(at.pos + at.len, total, size) == Blocks(0, total, size)
  {
    ChunkedPrefix(blocks, at.pos, total, size);
    BlocksNext(blocks, at.pos, total, size);
  }

  /** A loop over the chunking of `[0, total)` stopped at block `at`: the
      blocks before it, `at` and the blocks after it are the whole
      chunking. */
  lemma ChunkedStopped(blocks: seq<Block>, at: Block, total: nat, size: nat)
    requires size > 0 && Chunked(blocks + [at], at.pos + at.len, total, size)
    ensures blocks + [at] + Blocks(at.pos + at.len, total, size) == Blocks(0, total, size)
    ensures at.pos + at.len <= total && at.len <= size
  {
    assert (blocks + [at])[..|blocks|] == blocks;
    ChunkedStop(blocks, at, total, size);
  }

  /** The loop of twb_write stopped at block `at`: the blocks so far, `at`
      and the blocks after it are the chunking of the whole buffer, and
      `at` fits the frame twb_write_memory builds. */
  lemma WriteStopped(written: seq<Block>, at: Block, total: nat, memtype: byte, pagesize: byte)
    requires ChunkSize(memtype, pagesize) > 0
    requires Chunked(written + [at], at.pos + at.len, total, ChunkSize(memtype, pagesize))
    ensures written + [at] + Blocks(at.pos + at.len, total, ChunkSize(memtype, pagesize))
            == Blocks(0, total, ChunkSize(memtype, pagesize))
    ensures at.pos + at.len <= total && (memtype == MEMTYPE_FLASH ==> at.len <= pagesize)
    ensures memtype == MEMTYPE_FLASH && PowerOfTwo(pagesize) ==> Misalignment(Trunc16(at.pos), pagesize) == 0
  {
    ChunkedStopped(written, at, total, ChunkSize(memtype, pagesize));
    if memtype == MEMTYPE_FLASH && PowerOfTwo(pagesize) {
      AlignedBlock(written, at, total, pagesize);
    }
  }

  /** Every block of a page-sized chunking passes the alignment test. */
  lemma AlignedBlock(visited: seq<Block>, b: Block, total: nat, pagesize: byte)
    requires PowerOfTwo(pagesize)
    requires visited + [b] + Blocks(b.pos + b.len, total, pagesize) == Blocks(0, total, pagesize)
    ensures Misalignment(Trunc16(b.pos), pagesize) == 0
  {
    var all := Blocks(0, total, pagesize);
    BlocksAligned(0, total, pagesize);
    assert all[|visited|] == b;
  }

  lemma AppendAssoc<T>(a: seq<T>, b: seq<T>, c: seq<T>)
    ensures a + b + c == a + (b + c)
  {
  }

  /** One more block visited: one more progress report. */
  lemma MarksSnoc(blocks: seq<Block>, b: Block, max: int)
    ensures Marks(blocks + [b], max) == Marks(blocks, max) + [Progress(b.pos, max)]
  {
    assert (blocks + [b])[..|blocks|] == blocks;
  }

  /** The reports that reach the progress callback: all of them when one is
      installed, none otherwise. */
  function Shown(installed: bool, reports: seq<Progress>): seq<Progress>
  {
    if installed then reports else []
  }

  /** The progress reports issued before each block. */
  function Marks(blocks: seq<Block>, max: int): (r: seq<Progress>)
    ensures |r| == |blocks|
    decreases |blocks|
  {
    if blocks == [] then [] else Marks(blocks[..|blocks| - 1], max) + [Progress(blocks[|blocks| - 1].pos, max)]
  }
}
